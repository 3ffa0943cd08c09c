/** The text layer under both copies of the governor: whitespace trimming
    (Rust's `str::trim`, Go's `strings.TrimSpace`), decimal parsing (Rust's
    `u64::from_str`, Go's `strconv.ParseInt(s, 10, 64)`) and decimal printing
    (Rust's `format!("{}")`, Go's `fmt.Sprintf("%d")`). */
module Text {
  import opened Wrappers
  import opened MachineInts

  /** Unicode White_Space, the set both `trim` and `TrimSpace` strip. */
  predicate IsSpace(c: char) {
    ('\t' <= c <= '\r') || c == ' ' || c == '\U{85}' || c == '\U{A0}' || c == '\U{1680}'
    || ('\U{2000}' <= c <= '\U{200A}') || c == '\U{2028}' || c == '\U{2029}'
    || c == '\U{202F}' || c == '\U{205F}' || c == '\U{3000}'
  }

  predicate AllSpaces(s: string) {
    forall i :: 0 <= i < |s| ==> IsSpace(s[i])
  }

  /** No leading and no trailing whitespace. */
  predicate Trimmed(s: string) {
    s == [] || (!IsSpace(s[0]) && !IsSpace(s[|s| - 1]))
  }

  function TrimStart(s: string): (r: string)
    ensures |r| <= |s| && r == s[|s| - |r|..]
    ensures r == [] || !IsSpace(r[0])
    ensures forall i :: 0 <= i < |s| - |r| ==> IsSpace(s[i])
  {
    if s != [] && IsSpace(s[0]) then TrimStart(s[1..]) else s
  }

  function TrimEnd(s: string): (r: string)
    ensures |r| <= |s| && r == s[..|r|]
    ensures r == [] || !IsSpace(r[|r| - 1])
    ensures forall i :: |r| <= i < |s| ==> IsSpace(s[i])
  {
    if s != [] && IsSpace(s[|s| - 1]) then TrimEnd(s[..|s| - 1]) else s
  }

  function Trim(s: string): (r: string)
    ensures |r| <= |s| && Trimmed(r)
  {
    TrimEnd(TrimStart(s))
  }

  /** What `Trim` keeps: a slice of `s` with only whitespace before and after
      it, and no whitespace at either of its own ends. */
  lemma TrimSlice(s: string)
    ensures exists i, j :: 0 <= i <= j <= |s| && Trim(s) == s[i..j] && AllSpaces(s[..i]) && AllSpaces(s[j..])
  {
    var t := TrimStart(s);
    var r := TrimEnd(t);
    var i := |s| - |t|;
    assert r == s[i..i + |r|] by {
      assert t == s[i..] && r == t[..|r|];
    }
    forall k | i + |r| <= k < |s|
      ensures IsSpace(s[k])
    {
      assert s[k] == t[k - i];
    }
    SliceBetweenSpaces(s, i, i + |r|, r);
  }

  lemma SliceBetweenSpaces(s: string, i: nat, j: nat, r: string)
    requires i <= j <= |s| && r == s[i..j]
    requires forall k :: 0 <= k < i ==> IsSpace(s[k])
    requires forall k :: j <= k < |s| ==> IsSpace(s[k])
    ensures exists i', j' :: 0 <= i' <= j' <= |s| && r == s[i'..j'] && AllSpaces(s[..i']) && AllSpaces(s[j'..])
  {
    assert AllSpaces(s[..i]) && AllSpaces(s[j..]);
  }

  lemma {:induction false} TrimStartPadded(p: string, t: string)
    requires AllSpaces(p) && (t == [] || !IsSpace(t[0]))
    ensures TrimStart(p + t) == t
  {
    if p != [] {
      assert (p + t)[1..] == p[1..] + t;
      TrimStartPadded(p[1..], t);
    }
  }

  lemma {:induction false} TrimEndPadded(t: string, q: string)
    requires AllSpaces(q) && (t == [] || !IsSpace(t[|t| - 1]))
    ensures TrimEnd(t + q) == t
  {
    if q != [] {
      assert (t + q)[..|t + q| - 1] == t + q[..|q| - 1];
      TrimEndPadded(t, q[..|q| - 1]);
    }
  }

  /** Trimming strips exactly the surrounding whitespace of a non-blank text. */
  lemma TrimPadded(p: string, t: string, q: string)
    requires AllSpaces(p) && AllSpaces(q) && t != [] && Trimmed(t)
    ensures Trim(p + t + q) == t
  {
    assert p + t + q == p + (t + q);
    TrimStartPadded(p, t + q);
    TrimEndPadded(t, q);
  }

  // Decimal digits

  predicate IsDigit(c: char) { '0' <= c <= '9' }

  predicate AllDigits(s: string) {
    forall i :: 0 <= i < |s| ==> IsDigit(s[i])
  }

  function DigitValue(c: char): (d: nat)
    requires IsDigit(c)
    ensures d < 10
  {
    (c as int - '0' as int) as nat
  }

  function DigitChar(d: nat): (c: char)
    requires d < 10
    ensures IsDigit(c) && DigitValue(c) == d
  {
    ('0' as int + d) as char
  }

  /** The value of a string of decimal digits, most significant first. */
  function DigitsValue(s: string): nat
    requires AllDigits(s)
  {
    if s == [] then 0 else DigitsValue(s[..|s| - 1]) * 10 + DigitValue(s[|s| - 1])
  }

  /** Decimal text of a natural number, without leading zeros. */
  function ShowNat(n: nat): (r: string)
    ensures r != [] && AllDigits(r)
    ensures r[0] == '0' ==> n == 0
  {
    if n < 10 then [DigitChar(n)] else ShowNat(n / 10) + [DigitChar(n % 10)]
  }

  /** Decimal text of an integer, with a leading '-' when negative. */
  function ShowInt(i: int): (r: string)
    ensures r != [] && Trimmed(r)
    ensures r[0] == '-' <==> i < 0
  {
    if i < 0 then "-" + ShowNat(-i) else ShowNat(i)
  }

  lemma {:induction false} ValueOfShowNat(n: nat)
    ensures DigitsValue(ShowNat(n)) == n
  {
    if n >= 10 {
      var s := ShowNat(n);
      assert s[..|s| - 1] == ShowNat(n / 10);
      ValueOfShowNat(n / 10);
    }
  }

  // Parsers

  /** Rust's `u64::from_str`: an optional '+', then at least one decimal
      digit, and a value below 2^64; anything else is an error. */
  function ParseUnsigned(s: string): Option<u64> {
    var d := if s != [] && s[0] == '+' then s[1..] else s;
    if d != [] && AllDigits(d) && DigitsValue(d) < TwoTo64 then Some(DigitsValue(d)) else None
  }

  /** Go's `strconv.ParseInt(s, 10, 64)`: an optional sign, then at least one
      decimal digit, and a value inside the int64 range. */
  function ParseSigned(s: string): Option<i64> {
    if s != [] && s[0] == '-' then
      var d := s[1..];
      if d != [] && AllDigits(d) && DigitsValue(d) <= -I64Min then Some(0 - DigitsValue(d) as int) else None
    else
      var d := if s != [] && s[0] == '+' then s[1..] else s;
      if d != [] && AllDigits(d) && DigitsValue(d) <= I64Max then Some(DigitsValue(d)) else None
  }

  /** What the Rust copy prints, its parser reads back. */
  lemma ParseUnsignedShow(n: u64)
    ensures ParseUnsigned(ShowNat(n)) == Some(n)
  {
    ValueOfShowNat(n);
  }

  /** What the Go copy prints, its parser reads back, negative values included. */
  lemma ParseSignedShow(i: i64)
    ensures ParseSigned(ShowInt(i)) == Some(i)
  {
    if i < 0 {
      var d := ShowNat(-(i as int));
      ValueOfShowNat(-(i as int));
      assert ShowInt(i) == "-" + d;
      assert ("-" + d)[1..] == d;
    } else {
      ValueOfShowNat(i);
      assert ShowInt(i) == ShowNat(i);
    }
  }

  /** A number written as one line ("n\n") trims back to its digits. */
  lemma TrimLine(t: string)
    requires t != [] && Trimmed(t)
    ensures Trim(t + "\n") == t
  {
    assert t + "\n" == [] + t + "\n";
    TrimPadded([], t, "\n");
  }

  /** A signed number written as one line reads back as itself. */
  lemma ParseSignedLine(i: i64)
    ensures ParseSigned(Trim(ShowInt(i) + "\n")) == Some(i)
  {
    TrimLine(ShowInt(i));
    ParseSignedShow(i);
  }
}
