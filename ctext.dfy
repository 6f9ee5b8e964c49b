/** The C library string routines the message code relies on: `atoi`/`strtol`
    (decimal read), `%d` (decimal write), `strstr` (first occurrence) and the
    `%s` conversion of a possibly NULL pointer. Integers are unbounded here. */
module CText {
  import opened Optional

  predicate IsSpace(c: char) {
    c == ' ' || c == '\t' || c == '\n' || c == '\U{000B}' || c == '\U{000C}' || c == '\r'
  }

  predicate IsDigit(c: char) { '0' <= c <= '9' }

  predicate AllDigits(s: string) { forall k :: 0 <= k < |s| ==> IsDigit(s[k]) }

  function SkipSpace(s: string): (r: string)
    ensures |r| <= |s| && r == s[|s| - |r|..]
    ensures |r| > 0 ==> !IsSpace(r[0])
  {
    if |s| > 0 && IsSpace(s[0]) then SkipSpace(s[1..]) else s
  }

  /** The longest prefix of `s` made of decimal digits. */
  function LeadingDigits(s: string): (r: string)
    ensures r <= s && AllDigits(r)
    ensures |r| < |s| ==> !IsDigit(s[|r|])
  {
    if |s| > 0 && IsDigit(s[0]) then [s[0]] + LeadingDigits(s[1..]) else []
  }

  /** The value of a string of decimal digits, most significant first. */
  function DigitsValue(d: string): nat
    requires AllDigits(d)
  {
    if d == [] then 0 else 10 * DigitsValue(d[..|d| - 1]) + (d[|d| - 1] as int - '0' as int)
  }

  /** `atoi`, `strtol(s, NULL, 10)` and `strtoll(s, NULL, 10)`: leading white
      space is skipped, one optional sign is read, then as many decimal digits
      as follow; no digit at all reads as 0. */
  function Atoi(s: string): int {
    var t := SkipSpace(s);
    if |t| > 0 && t[0] == '-' then 0 - DigitsValue(LeadingDigits(t[1..]))
    else if |t| > 0 && t[0] == '+' then DigitsValue(LeadingDigits(t[1..]))
    else DigitsValue(LeadingDigits(t))
  }

  function DigitChar(d: nat): char
    requires d < 10
  {
    ('0' as int + d) as char
  }

  /** `%d` of a non-negative number: no leading zero, at least one digit. */
  function FormatNat(n: nat): (r: string)
    ensures |r| > 0 && AllDigits(r)
    ensures |r| > 1 ==> r[0] != '0'
  {
    if n < 10 then [DigitChar(n)] else FormatNat(n / 10) + [DigitChar(n % 10)]
  }

  /** `%d` / `%ld` of any number. */
  function FormatInt(n: int): (r: string)
    ensures |r| > 0 && (r[0] == '-' || IsDigit(r[0]))
  {
    if n < 0 then "-" + FormatNat(-n) else FormatNat(n)
  }

  lemma {:induction false} DigitsValueOfFormatNat(n: nat)
    ensures DigitsValue(FormatNat(n)) == n
  {
    if n >= 10 {
      var r := FormatNat(n);
      assert r[..|r| - 1] == FormatNat(n / 10);
      DigitsValueOfFormatNat(n / 10);
    }
  }

  lemma {:induction false} LeadingDigitsOfDigits(s: string)
    requires AllDigits(s)
    ensures LeadingDigits(s) == s
  {
    if |s| > 0 {
      LeadingDigitsOfDigits(s[1..]);
    }
  }

  /** What `%d` writes, `atoi` reads back: the number the encoder puts in a
      request is the number the decoder recovers from it. */
  lemma AtoiFormatInt(n: int)
    ensures Atoi(FormatInt(n)) == n
  {
    var m: nat := if n < 0 then -n else n;
    var d := FormatNat(m);
    LeadingDigitsOfDigits(d);
    DigitsValueOfFormatNat(m);
    var f := FormatInt(n);
    assert !IsSpace(f[0]);
    assert SkipSpace(f) == f;
    if n < 0 {
      assert f == "-" + d && f[1..] == d;
    } else {
      assert f == d && f[0] != '-' && f[0] != '+';
    }
  }

  /** The defaults the decoder reads with `atoi`: "0", "1" and "12". */
  lemma AtoiDefaults()
    ensures Atoi("0") == 0 && Atoi("1") == 1 && Atoi("12") == 12
  {
    LeadingDigitsOfDigits("0");
    LeadingDigitsOfDigits("1");
    LeadingDigitsOfDigits("12");
    assert "12"[..1] == "1";
    assert DigitsValue("12") == 10 * DigitsValue("1") + 2;
  }

  /** `pat` occurs in `s` starting at index `k`. */
  predicate OccursAt(s: string, pat: string, k: nat) {
    k + |pat| <= |s| && s[k..k + |pat|] == pat
  }

  /** `strstr(s + from, pat)`: the first occurrence of `pat` at or after `from`. */
  function IndexOfFrom(s: string, pat: string, from: nat): (r: Option<nat>)
    ensures r.Some? ==> from <= r.value && OccursAt(s, pat, r.value)
    ensures r.Some? ==> forall k :: from <= k < r.value ==> !OccursAt(s, pat, k)
    ensures r.None? ==> forall k :: from <= k ==> !OccursAt(s, pat, k)
    decreases |s| - from
  {
    if from + |pat| > |s| then None
    else if s[from..from + |pat|] == pat then Some(from)
    else IndexOfFrom(s, pat, from + 1)
  }

  /** `strstr(s, pat)` (and `strchr` for a one-character `pat`). */
  function IndexOf(s: string, pat: string): (r: Option<nat>)
    ensures r.Some? ==> OccursAt(s, pat, r.value) && forall k: nat :: k < r.value ==> !OccursAt(s, pat, k)
    ensures r.None? ==> forall k: nat :: !OccursAt(s, pat, k)
  {
    IndexOfFrom(s, pat, 0)
  }

  /** `strchr(s, c)`: the index of the first `c` in `s`. */
  function CharIndex(s: string, c: char): (r: Option<nat>)
    ensures r.Some? ==> r.value < |s| && s[r.value] == c && c !in s[..r.value]
    ensures r.None? ==> c !in s
  {
    var r := IndexOf(s, [c]);
    assert forall k: nat :: k < |s| ==> (OccursAt(s, [c], k) <==> s[k] == c) by {
      forall k: nat | k < |s| ensures OccursAt(s, [c], k) <==> s[k] == c {
        assert s[k..k + 1] == [s[k]];
      }
    }
    r
  }

  /** What glibc's `printf("%s", p)` writes for a possibly NULL `p`. */
  function CStr(p: Option<string>): string {
    p.GetOr("(null)")
  }
}
