/**
 * Input validation of the bot: `sanitise_mod`, `sanitise_url` and `get_dates`.
 *
 * The two regular expressions `MOD_RE` and `URL_RE` are each given twice: as a
 * specification that reads like the regular expression (a concatenation of
 * pieces, `IsModCode` and `IsInviteUrl`), and as a direct matcher on indices
 * (`MatchesModCode`, `MatchesInviteUrl`) that the sanitisers run. A lemma per
 * pair shows that they accept the same strings.
 */
module Validate {
  import opened Wrappers

  /** `RENEW_ALLOWANCE` and `REMOVE_ALLOWANCE`, in days. */
  const RenewAllowance: int := 30
  const RemoveAllowance: int := 60

  /** The error `sanitise_mod` and `sanitise_url` raise (`ValueError`). */
  datatype ValueError = InvalidModuleCode | InvalidUrl

  // ---------------------------------------------------------------------------
  // Characters

  /** The ASCII characters Python's `str.isspace` accepts, hence those `strip()` removes. */
  predicate IsSpace(c: char) {
    c == ' ' || (9 <= c as int <= 13) || (28 <= c as int <= 31)
  }

  /** `[A-Z]` */
  predicate IsUpper(c: char) { 'A' <= c <= 'Z' }

  predicate IsLower(c: char) { 'a' <= c <= 'z' }

  /** `[0-9]` */
  predicate IsDigit(c: char) { '0' <= c <= '9' }

  /** `[a-zA-Z0-9]` */
  predicate IsAlnum(c: char) { IsUpper(c) || IsLower(c) || IsDigit(c) }

  predicate AllUpper(s: string) { forall i :: 0 <= i < |s| ==> IsUpper(s[i]) }

  predicate AllDigits(s: string) { forall i :: 0 <= i < |s| ==> IsDigit(s[i]) }

  predicate AllAlnum(s: string) { forall i :: 0 <= i < |s| ==> IsAlnum(s[i]) }

  /** `str.upper()` on one ASCII character. */
  function UpperChar(c: char): (u: char)
    ensures !IsLower(u)
    ensures IsLower(c) ==> IsUpper(u) && (u as int) == (c as int) - 32
    ensures !IsLower(c) ==> u == c
  {
    if IsLower(c) then (c as int - 32) as char else c
  }

  // ---------------------------------------------------------------------------
  // strip() and upper()

  /** Drops the leading whitespace of `s`. */
  function TrimStart(s: string): (r: string)
    ensures |r| <= |s| && r == s[|s| - |r|..]
    ensures forall i :: 0 <= i < |s| - |r| ==> IsSpace(s[i])
    ensures r == [] || !IsSpace(r[0])
    decreases |s|
  {
    if |s| > 0 && IsSpace(s[0]) then TrimStart(s[1..]) else s
  }

  /** Drops the trailing whitespace of `s`. */
  function TrimEnd(s: string): (r: string)
    ensures |r| <= |s| && r == s[..|r|]
    ensures forall i :: |r| <= i < |s| ==> IsSpace(s[i])
    ensures r == [] || !IsSpace(r[|r| - 1])
    decreases |s|
  {
    if |s| > 0 && IsSpace(s[|s| - 1]) then TrimEnd(s[..|s| - 1]) else s
  }

  /** `str.strip()`: whitespace removed from both ends, and nothing else. */
  function Strip(s: string): (r: string)
    ensures |r| <= |s|
    ensures r == [] || (!IsSpace(r[0]) && !IsSpace(r[|r| - 1]))
    ensures r == [] <==> forall i :: 0 <= i < |s| ==> IsSpace(s[i])
    ensures s == [] || (!IsSpace(s[0]) && !IsSpace(s[|s| - 1])) ==> r == s
  {
    var t := TrimStart(s);
    var r := TrimEnd(t);
    assert r == [] ==> t == [];
    r
  }

  /** `r` stands at offset `a` of `s`, and everything of `s` around it is whitespace. */
  predicate StrippedAt(s: string, r: string, a: int) {
    && 0 <= a <= a + |r| <= |s| && r == s[a..a + |r|]
    && (forall i :: 0 <= i < a ==> IsSpace(s[i]))
    && (forall i :: a + |r| <= i < |s| ==> IsSpace(s[i]))
  }

  /** `strip()` removes nothing but whitespace: its result is a slice of `s` with only whitespace around it. */
  lemma StripIsSlice(s: string)
    ensures exists a :: StrippedAt(s, Strip(s), a)
  {
    var t := TrimStart(s);
    assert StrippedAt(s, Strip(s), |s| - |t|);
  }

  /** `str.upper()` on ASCII text: each letter mapped on its own, the length kept. */
  function Upper(s: string): (r: string)
    ensures |r| == |s|
    ensures forall i :: 0 <= i < |s| ==> r[i] == UpperChar(s[i])
  {
    if s == [] then [] else [UpperChar(s[0])] + Upper(s[1..])
  }

  // ---------------------------------------------------------------------------
  // MOD_RE = '^[A-Z]{2,3}[0-9]{4}[A-Z]{0,1}$'

  /** The language of `MOD_RE`: 2 or 3 capitals, 4 digits, at most one capital. */
  ghost predicate IsModCode(s: string) {
    exists k :: 2 <= k <= 3 && k + 4 <= |s| <= k + 5 && ModCodeSplit(s, k)
  }

  /** `s` read as `s[..k]` capitals, `s[k..k+4]` digits and capitals after that. */
  predicate ModCodeSplit(s: string, k: nat)
    requires k + 4 <= |s|
  {
    AllUpper(s[..k]) && AllDigits(s[k..k + 4]) && AllUpper(s[k + 4..])
  }

  /** The matcher: the letter prefix is 3 long exactly when the third character is a capital. */
  predicate MatchesModCode(s: string) {
    var k := if |s| > 2 && IsUpper(s[2]) then 3 else 2;
    k + 4 <= |s| <= k + 5 && ModCodeSplit(s, k)
  }

  lemma MatchesModCodeIff(s: string)
    ensures MatchesModCode(s) <==> IsModCode(s)
  {
    var k := if |s| > 2 && IsUpper(s[2]) then 3 else 2;
    if IsModCode(s) {
      var j :| 2 <= j <= 3 && j + 4 <= |s| <= j + 5 && ModCodeSplit(s, j);
      if j == 2 {
        assert IsDigit(s[2..6][0]);
      } else {
        assert IsUpper(s[..3][2]);
      }
      assert j == k;
    }
    if MatchesModCode(s) {
      assert 2 <= k <= 3 && k + 4 <= |s| <= k + 5 && ModCodeSplit(s, k);
    }
  }

  /** Every module code is 6 to 8 characters of capitals and digits. */
  lemma ModCodeShape(s: string)
    requires IsModCode(s)
    ensures 6 <= |s| <= 8
    ensures forall i :: 0 <= i < |s| ==> IsUpper(s[i]) || IsDigit(s[i])
  {
    var k :| 2 <= k <= 3 && k + 4 <= |s| <= k + 5 && ModCodeSplit(s, k);
    forall i | 0 <= i < |s| ensures IsUpper(s[i]) || IsDigit(s[i]) {
      if i < k {
        assert s[..k][i] == s[i];
      } else if i < k + 4 {
        assert s[k..k + 4][i - k] == s[i];
      } else {
        assert s[k + 4..][i - k - 4] == s[i];
      }
    }
  }

  /**
   * `sanitise_mod`: strip, upper-case, and accept the result exactly when it
   * is in the language of `MOD_RE`; otherwise raise `ValueError`.
   */
  function SanitiseMod(s: string): (r: Result<string, ValueError>)
    ensures r.Ok? <==> IsModCode(Upper(Strip(s)))
    ensures r.Ok? ==> r.value == Upper(Strip(s)) && 6 <= |r.value| <= 8
    ensures r.Err? ==> r.error == InvalidModuleCode
  {
    var m := Upper(Strip(s));
    MatchesModCodeIff(m);
    if MatchesModCode(m) then
      ModCodeShape(m);
      Ok(m)
    else
      Err(InvalidModuleCode)
  }

  /** Text without lower-case letters is its own upper case. */
  lemma UpperFixed(c: string)
    requires forall i :: 0 <= i < |c| ==> !IsLower(c[i])
    ensures Upper(c) == c
  {
    var u := Upper(c);
    forall i | 0 <= i < |c| ensures u[i] == c[i] {
      assert !IsLower(c[i]);
    }
  }

  /** A module code has no blank to strip and no lower-case letter to raise. */
  lemma ModCodeCanonical(c: string)
    requires IsModCode(c)
    ensures Strip(c) == c && Upper(c) == c
  {
    ModCodeShape(c);
    StripUnpadded(c);
    UpperFixed(c);
  }

  /** A code `sanitise_mod` returned is returned again unchanged. */
  lemma SanitiseModIdempotent(s: string)
    requires SanitiseMod(s).Ok?
    ensures SanitiseMod(SanitiseMod(s).value) == SanitiseMod(s)
  {
    var c := SanitiseMod(s).value;
    ModCodeCanonical(c);
    SanitiseModOf(c, c);
    MatchesModCodeIff(c);
  }

  // ---------------------------------------------------------------------------
  // URL_RE = '^(https://t.me/joinchat/)[a-zA-Z0-9]*$'

  /** The pattern's text before its unescaped `.`. */
  const UrlHead: string := "https://t"
  /** The pattern's text after its unescaped `.`. */
  const UrlTail: string := "me/joinchat/"
  /** Length of the matched prefix: `UrlHead`, one character, `UrlTail`. */
  const UrlPrefixLength: nat := 22

  /**
   * The language of `URL_RE`: "https://t", then any character but a line
   * break (the regex's `.` is unescaped), then "me/joinchat/", then zero or
   * more ASCII letters and digits (the regex uses `*`).
   */
  ghost predicate IsInviteUrl(s: string) {
    exists c: char, tail: string :: c != '\n' && AllAlnum(tail) && s == UrlHead + [c] + UrlTail + tail
  }

  predicate MatchesInviteUrl(s: string) {
    UrlPrefixLength <= |s| && s[..9] == UrlHead && s[9] != '\n' && s[10..22] == UrlTail
    && AllAlnum(s[22..])
  }

  lemma MatchesInviteUrlIff(s: string)
    ensures MatchesInviteUrl(s) <==> IsInviteUrl(s)
  {
    if MatchesInviteUrl(s) {
      assert s == UrlHead + [s[9]] + UrlTail + s[22..];
    }
    if IsInviteUrl(s) {
      var c: char, tail: string :| c != '\n' && AllAlnum(tail) && s == UrlHead + [c] + UrlTail + tail;
      assert s[..9] == UrlHead;
      assert s[9] == c;
      assert s[10..22] == UrlTail;
      assert s[22..] == tail;
    }
  }

  /**
   * `sanitise_url`: strip, and accept the result exactly when it is in the
   * language of `URL_RE`; otherwise raise `ValueError`.
   */
  function SanitiseUrl(s: string): (r: Result<string, ValueError>)
    ensures r.Ok? <==> IsInviteUrl(Strip(s))
    ensures r.Ok? ==> r.value == Strip(s) && |r.value| >= UrlPrefixLength
    ensures r.Err? ==> r.error == InvalidUrl
  {
    var u := Strip(s);
    MatchesInviteUrlIff(u);
    if MatchesInviteUrl(u) then Ok(u) else Err(InvalidUrl)
  }

  /** A url `sanitise_url` returned is returned again unchanged. */
  lemma SanitiseUrlIdempotent(s: string)
    requires SanitiseUrl(s).Ok?
    ensures SanitiseUrl(SanitiseUrl(s).value) == SanitiseUrl(s)
  {
    var u := SanitiseUrl(s).value;
    assert u[0] == 'h';
    assert IsAlnum(u[|u| - 1]) || u[|u| - 1] == '/' by {
      MatchesInviteUrlIff(u);
      if |u| > 22 {
        assert u[22..][|u| - 23] == u[|u| - 1];
      } else {
        assert u[21] == UrlTail[11];
      }
    }
  }

  // ---------------------------------------------------------------------------
  // get_dates

  /**
   * `get_dates` on the day number `today`: the renew date and the remove
   * date, which falls a further 30 days after renewal.
   */
  function GetDates(today: int): (dates: (int, int))
    ensures dates.0 == today + RenewAllowance && dates.1 == today + RemoveAllowance
    ensures today < dates.0 < dates.1 && dates.1 - dates.0 == 30
  {
    (today + RenewAllowance, today + RemoveAllowance)
  }

  // ---------------------------------------------------------------------------
  // Worked inputs

  /** `strip()` leaves text that neither starts nor ends with whitespace alone. */
  lemma StripUnpadded(s: string)
    requires s != [] && !IsSpace(s[0]) && !IsSpace(s[|s| - 1])
    ensures Strip(s) == s
  {
  }

  /** `strip()` on text with one blank at each end. */
  lemma StripOnePad(s: string)
    requires 3 <= |s| && IsSpace(s[0]) && IsSpace(s[|s| - 1])
    requires !IsSpace(s[1]) && !IsSpace(s[|s| - 2])
    ensures Strip(s) == s[1..|s| - 1]
  {
    assert TrimStart(s[1..]) == s[1..];
    assert s[1..][..|s| - 2] == s[1..|s| - 1];
  }

  /** `sanitise_mod` once the stripped text `t` is known. */
  lemma SanitiseModOf(s: string, t: string)
    requires Strip(s) == t
    ensures SanitiseMod(s) == if MatchesModCode(Upper(t)) then Ok(Upper(t)) else Err(InvalidModuleCode)
  {
    MatchesModCodeIff(Upper(t));
  }

  /** `sanitise_url` on text that `strip()` leaves alone. */
  lemma SanitiseUrlOf(s: string)
    requires s != [] && !IsSpace(s[0]) && !IsSpace(s[|s| - 1])
    ensures SanitiseUrl(s) == if MatchesInviteUrl(s) then Ok(s) else Err(InvalidUrl)
  {
    StripUnpadded(s);
    MatchesInviteUrlIff(s);
  }

  /** Lower case is accepted and upper-cased. */
  lemma LowerCaseCodeAccepted()
    ensures SanitiseMod("cs2103t") == Ok("CS2103T")
  {
    assert MatchesModCode("CS2103T");
    assert Upper("cs2103t") == "CS2103T";
    StripUnpadded("cs2103t");
    SanitiseModOf("cs2103t", "cs2103t");
  }

  /** A module code between two blanks is accepted with the blanks stripped. */
  lemma PaddedCodeAccepted(c: string)
    requires IsModCode(c)
    ensures SanitiseMod(" " + c + " ") == Ok(c)
  {
    var s := " " + c + " ";
    ModCodeShape(c);
    assert s[1..|s| - 1] == c;
    StripOnePad(s);
    ModCodeCanonical(c);
    SanitiseModOf(s, c);
    MatchesModCodeIff(c);
  }

  /** Too few letters and digits is refused. */
  lemma ShortCodeRefused()
    ensures SanitiseMod("C123") == Err(InvalidModuleCode)
  {
    StripUnpadded("C123");
    SanitiseModOf("C123", "C123");
  }

  /** A four-letter prefix is refused. */
  lemma LongPrefixCodeRefused()
    ensures SanitiseMod("ABCD12345") == Err(InvalidModuleCode)
  {
    assert !MatchesModCode("ABCD12345") by {
      assert !IsDigit("ABCD12345"[3]);
    }
    UpperFixed("ABCD12345");
    StripUnpadded("ABCD12345");
    SanitiseModOf("ABCD12345", "ABCD12345");
  }

  /**
   * Whatever character stands where "t.me" has its dot, and however short
   * the alphanumeric suffix (even empty), the url is accepted as it is.
   */
  lemma UrlAcceptsAnySeparator(c: char, tail: string)
    requires c != '\n' && AllAlnum(tail)
    ensures SanitiseUrl(UrlHead + [c] + UrlTail + tail) == Ok(UrlHead + [c] + UrlTail + tail)
  {
    var u := UrlHead + [c] + UrlTail + tail;
    assert u[0] == 'h';
    if tail == [] {
      assert u[|u| - 1] == '/';
    } else {
      assert u[|u| - 1] == tail[|tail| - 1];
    }
    SanitiseUrlOf(u);
    MatchesInviteUrlIff(u);
  }

  /** An accepted url followed by a further path segment is refused. */
  lemma UrlRefusesTrailingPath(u: string, p: string)
    requires MatchesInviteUrl(u) && p != [] && AllAlnum(p)
    ensures SanitiseUrl(u + "/" + p) == Err(InvalidUrl)
  {
    var v := u + "/" + p;
    assert v[0] == u[0] == 'h';
    assert v[|v| - 1] == p[|p| - 1];
    SanitiseUrlOf(v);
    assert v[22..][|u| - 22] == '/';
  }

  /** A url with the scheme "http" in place of "https" is refused. */
  lemma PlainHttpRefused(c: char, tail: string)
    requires c != '\n' && AllAlnum(tail)
    ensures SanitiseUrl("http://t" + [c] + UrlTail + tail) == Err(InvalidUrl)
  {
    var b := "http://t" + [c] + UrlTail + tail;
    assert b[0] == 'h';
    if tail == [] {
      assert b[|b| - 1] == '/';
    } else {
      assert b[|b| - 1] == tail[|tail| - 1];
    }
    SanitiseUrlOf(b);
    assert !MatchesInviteUrl(b) by {
      assert b[4] == ':' != UrlHead[4];
    }
  }
}
