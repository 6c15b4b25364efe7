/** The string handling of the authentication endpoint: Python's `str.strip`
    and `str.lower`, the username rule `validate_username` and the email
    regular expression of `validate_email`, all restricted to ASCII. */
module AuthValidation {

  import opened Wrappers

  // ----- characters -----

  /** The ASCII characters Python's `str.isspace` accepts: space, tab, line
      feed, vertical tab, form feed, carriage return, and the four
      separators 0x1C to 0x1F. */
  predicate IsSpace(c: char)
  {
    var n := c as int;
    n == 32 || 9 <= n <= 13 || 28 <= n <= 31
  }

  predicate IsAsciiLetter(c: char)
  {
    'a' <= c <= 'z' || 'A' <= c <= 'Z'
  }

  predicate IsAsciiDigit(c: char)
  {
    '0' <= c <= '9'
  }

  predicate IsAlnum(c: char)
  {
    IsAsciiLetter(c) || IsAsciiDigit(c)
  }

  // ----- str.strip and str.lower -----

  /** Drops leading whitespace: what is left is a suffix of `s`, everything
      dropped was whitespace, and what is left does not start with any. */
  function TrimStart(s: string): (r: string)
    ensures |r| <= |s| && r == s[|s| - |r|..]
    ensures forall k | 0 <= k < |s| - |r| :: IsSpace(s[k])
    ensures r == [] || !IsSpace(r[0])
  {
    if s != [] && IsSpace(s[0]) then TrimStart(s[1..]) else s
  }

  /** Drops trailing whitespace: what is left is a prefix of `s`, everything
      dropped was whitespace, and what is left does not end with any. */
  function TrimEnd(s: string): (r: string)
    ensures |r| <= |s| && r == s[..|r|]
    ensures forall k | |r| <= k < |s| :: IsSpace(s[k])
    ensures r == [] || !IsSpace(r[|r| - 1])
  {
    if s != [] && IsSpace(s[|s| - 1]) then TrimEnd(s[..|s| - 1]) else s
  }

  /** `r` is the slice of `s` starting at `i`, and everything of `s` before
      and after that slice is whitespace. */
  predicate TrimmedAt(s: string, r: string, i: int)
  {
    && 0 <= i <= |s| - |r|
    && r == s[i..i + |r|]
    && (forall k | 0 <= k < i :: IsSpace(s[k]))
    && (forall k | i + |r| <= k < |s| :: IsSpace(s[k]))
  }

  /** `s.strip()`: the result is the slice of `s` left once the whitespace
      before and after it is removed; neither of its ends is whitespace, and
      it is empty exactly when `s` is all whitespace. */
  function Strip(s: string): (r: string)
    ensures |r| <= |s|
    ensures exists i :: TrimmedAt(s, r, i)
    ensures r == [] || (!IsSpace(r[0]) && !IsSpace(r[|r| - 1]))
    ensures r == [] <==> forall k | 0 <= k < |s| :: IsSpace(s[k])
  {
    var t := TrimStart(s);
    var r := TrimEnd(t);
    assert r == [] ==> t == [] by {
      if t != [] {
        assert !IsSpace(t[0]);
      }
    }
    var i := |s| - |t|;
    assert r == s[i..i + |r|];
    assert forall k | i + |r| <= k < |s| :: IsSpace(s[k]) by {
      forall k | i + |r| <= k < |s| ensures IsSpace(s[k]) {
        assert s[k] == t[k - i];
      }
    }
    assert TrimmedAt(s, r, i);
    r
  }

  function LowerChar(c: char): char
  {
    if 'A' <= c <= 'Z' then (c as int + 32) as char else c
  }

  /** `s.lower()` on ASCII: every upper-case letter becomes its lower-case
      partner, every other character stays. */
  function Lower(s: string): (r: string)
    ensures |r| == |s|
    ensures forall k | 0 <= k < |r| :: !('A' <= r[k] <= 'Z')
    ensures forall k | 0 <= k < |s| :: !('A' <= s[k] <= 'Z') ==> r[k] == s[k]
    ensures forall k | 0 <= k < |s| :: 'A' <= s[k] <= 'Z' ==> r[k] as int == s[k] as int + 32
  {
    seq(|s|, k requires 0 <= k < |s| => LowerChar(s[k]))
  }

  // ----- validate_username -----

  /** `s.replace('_', '')`. */
  function RemoveUnderscores(s: string): (r: string)
    ensures |r| <= |s|
    ensures forall c :: c in r <==> c in s && c != '_'
  {
    if s == [] then []
    else (if s[0] == '_' then [] else [s[0]]) + RemoveUnderscores(s[1..])
  }

  /** `s.isalnum()`: non-empty and every character a letter or a digit. */
  predicate IsAlnumString(s: string)
  {
    |s| > 0 && forall k | 0 <= k < |s| :: IsAlnum(s[k])
  }

  /** `validate_username`. */
  predicate ValidateUsername(username: string)
  {
    3 <= |username| <= 50 && IsAlnumString(RemoveUnderscores(username))
  }

  /** A username is valid exactly when it has 3 to 50 characters, each a
      letter, a digit or an underscore, and not all of them underscores. */
  lemma ValidateUsernameIff(username: string)
    ensures ValidateUsername(username) <==>
              && 3 <= |username| <= 50
              && (forall k | 0 <= k < |username| :: IsAlnum(username[k]) || username[k] == '_')
              && (exists k | 0 <= k < |username| :: username[k] != '_')
  {
    var r := RemoveUnderscores(username);
    if IsAlnumString(r) {
      forall k | 0 <= k < |username| ensures IsAlnum(username[k]) || username[k] == '_' {
        if username[k] != '_' {
          assert username[k] in r;
        }
      }
      assert r[0] in username;
    }
    if (forall k | 0 <= k < |username| :: IsAlnum(username[k]) || username[k] == '_')
       && (exists k | 0 <= k < |username| :: username[k] != '_')
    {
      var k :| 0 <= k < |username| && username[k] != '_';
      assert username[k] in r;
      forall j | 0 <= j < |r| ensures IsAlnum(r[j]) {
        assert r[j] in username;
      }
    }
  }

  /** The username rule rejects names made only of underscores. */
  lemma UnderscoresOnlyRejected()
    ensures !ValidateUsername("___")
  {
    assert RemoveUnderscores("___") == [];
  }

  // ----- validate_email -----

  /** `[a-zA-Z0-9._%+-]` */
  predicate IsLocalChar(c: char)
  {
    IsAlnum(c) || c == '.' || c == '_' || c == '%' || c == '+' || c == '-'
  }

  /** `[a-zA-Z0-9.-]` */
  predicate IsDomainChar(c: char)
  {
    IsAlnum(c) || c == '.' || c == '-'
  }

  /** `s` splits at an '@' at index `at` and a '.' at index `dot` as the
      pattern `[a-zA-Z0-9._%+-]+@[a-zA-Z0-9.-]+\.[a-zA-Z]{2,}` demands. */
  predicate EmailSplit(s: string, at: int, dot: int)
  {
    && 1 <= at && at + 2 <= dot && dot + 3 <= |s|
    && s[at] == '@' && s[dot] == '.'
    && (forall k | 0 <= k < at :: IsLocalChar(s[k]))
    && (forall k | at < k < dot :: IsDomainChar(s[k]))
    && (forall k | dot < k < |s| :: IsAsciiLetter(s[k]))
  }

  /** The whole of `s` is in the language of the pattern. */
  ghost predicate EmailPattern(s: string)
  {
    exists at, dot | 0 <= at < dot < |s| :: EmailSplit(s, at, dot)
  }

  /** The first index of `c` in `s`. */
  function IndexOf(s: string, c: char): (r: Option<nat>)
    ensures r.Some? ==> r.value < |s| && s[r.value] == c
    ensures r.Some? ==> forall k | 0 <= k < r.value :: s[k] != c
    ensures r.None? <==> c !in s
  {
    if s == [] then None
    else if s[0] == c then Some(0)
    else match IndexOf(s[1..], c)
      case None => None
      case Some(i) => Some(i + 1)
  }

  /** The last index of `c` in `s`. */
  function LastIndexOf(s: string, c: char): (r: Option<nat>)
    ensures r.Some? ==> r.value < |s| && s[r.value] == c
    ensures r.Some? ==> forall k | r.value < k < |s| :: s[k] != c
    ensures r.None? <==> c !in s
  {
    if s == [] then None
    else if s[|s| - 1] == c then Some(|s| - 1)
    else LastIndexOf(s[..|s| - 1], c)
  }

  /** A direct test of the pattern: neither the local part nor the domain
      may hold an '@', and the top-level part may hold no '.', so the only
      candidate split is at the first '@' and the last '.'. */
  predicate EmailShape(s: string)
  {
    match (IndexOf(s, '@'), LastIndexOf(s, '.'))
    case (Some(at), Some(dot)) => EmailSplit(s, at, dot)
    case _ => false
  }

  /** The direct test accepts exactly the strings of the pattern. */
  lemma EmailShapeIff(s: string)
    ensures EmailShape(s) <==> EmailPattern(s)
  {
    if EmailPattern(s) {
      var at, dot :| 0 <= at < dot < |s| && EmailSplit(s, at, dot);
      var i := IndexOf(s, '@');
      var j := LastIndexOf(s, '.');
      assert '@' in s by { assert s[at] == '@'; }
      assert '.' in s by { assert s[dot] == '.'; }
      assert i.value == at;
      assert j.value == dot;
    }
    if EmailShape(s) {
      var at := IndexOf(s, '@').value;
      var dot := LastIndexOf(s, '.').value;
      assert EmailSplit(s, at, dot);
    }
  }

  /** `validate_email`: `re.match` anchors the pattern at the start, and
      Python's `$` matches at the end or just before a final line feed. */
  predicate ValidateEmail(email: string)
  {
    EmailShape(email)
    || (|email| > 0 && email[|email| - 1] == '\n' && EmailShape(email[..|email| - 1]))
  }

  /** `validate_email` holds exactly when the pattern covers the whole string,
      or the whole string but a final line feed. */
  lemma ValidateEmailIff(email: string)
    ensures ValidateEmail(email) <==>
              EmailPattern(email)
              || (|email| > 0 && email[|email| - 1] == '\n' && EmailPattern(email[..|email| - 1]))
  {
    EmailShapeIff(email);
    if |email| > 0 {
      EmailShapeIff(email[..|email| - 1]);
    }
  }

  /** The `$` quirk: a final line feed is let through. */
  lemma TrailingLineFeedAccepted()
    ensures ValidateEmail("a@b.cc\n")
    ensures !EmailPattern("a@b.cc\n")
  {
    var s := "a@b.cc\n";
    var t := "a@b.cc";
    assert s[..6] == t;
    assert IndexOf(t, '@') == Some(1) by {
      assert t[0] != '@' && t[1] == '@';
    }
    assert LastIndexOf(t, '.') == Some(3) by {
      assert t[5] != '.' && t[4] != '.' && t[3] == '.';
    }
    assert EmailSplit(t, 1, 3);
    assert IndexOf(s, '@') == Some(1) by {
      assert s[0] != '@' && s[1] == '@';
    }
    assert LastIndexOf(s, '.') == Some(3) by {
      assert s[6] != '.' && s[5] != '.' && s[4] != '.' && s[3] == '.';
    }
    assert !IsAsciiLetter(s[6]);
    EmailShapeIff(s);
  }

  /** On a stripped string the quirk cannot arise, so registration, which
      strips and lower-cases the email first, checks the pattern exactly. */
  lemma StrippedEmailMatchesPattern(raw: string)
    ensures ValidateEmail(Lower(Strip(raw))) <==> EmailPattern(Lower(Strip(raw)))
  {
    var e := Lower(Strip(raw));
    var s := Strip(raw);
    if |e| > 0 {
      assert !IsSpace(s[|s| - 1]);
      assert e[|e| - 1] != '\n';
    }
    ValidateEmailIff(e);
  }
}
