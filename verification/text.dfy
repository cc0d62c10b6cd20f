/**
 ASCII string helpers the key, pointer and batch code share: the fragments of
 Go's strings and strconv packages this repository uses.
 */
module Text {
  import opened Wrappers

  // ---- characters ----

  predicate IsDigit(c: char) { '0' <= c <= '9' }

  predicate IsHexDigit(c: char) {
    '0' <= c <= '9' || 'a' <= c <= 'f' || 'A' <= c <= 'F'
  }

  predicate IsSpace(c: char) {
    c == ' ' || '\t' <= c <= '\r'
  }

  function LowerChar(c: char): char {
    if 'A' <= c <= 'Z' then ((c as int) + 32) as char else c
  }

  function ToLower(s: string): (r: string)
    ensures |r| == |s| && forall i :: 0 <= i < |s| ==> r[i] == LowerChar(s[i])
  {
    seq(|s|, i requires 0 <= i < |s| => LowerChar(s[i]))
  }

  predicate IsSha256Hex(s: string) {
    |s| == 64 && forall i :: 0 <= i < |s| ==> IsHexDigit(s[i])
  }

  /** A digest in the spelling the store is keyed by. */
  predicate IsCanonicalOid(s: string) {
    IsSha256Hex(s) && ToLower(s) == s
  }

  /** Sixty-four digits and letters from a to f. */
  lemma CanonicalIff(s: string)
    ensures IsCanonicalOid(s) <==> |s| == 64 && forall c :: c in s ==> '0' <= c <= '9' || 'a' <= c <= 'f'
  {
    if |s| == 64 && forall c :: c in s ==> '0' <= c <= '9' || 'a' <= c <= 'f' {
      assert forall i :: 0 <= i < |s| ==> s[i] in s;
      assert ToLower(s) == s;
    }
    if IsCanonicalOid(s) {
      assert forall i :: 0 <= i < |s| ==> s[i] == LowerChar(s[i]);
    }
  }

  lemma LowerIsCanonical(s: string)
    requires IsSha256Hex(s)
    ensures IsCanonicalOid(ToLower(s))
  {
  }

  // ---- searching ----

  predicate HasPrefix(s: string, prefix: string) {
    |prefix| <= |s| && s[..|prefix|] == prefix
  }

  predicate HasSuffix(s: string, suffix: string) {
    |suffix| <= |s| && s[|s| - |suffix|..] == suffix
  }

  /** The first position of c, or -1. */
  function Index(s: string, c: char): (i: int)
    ensures -1 <= i < |s|
    ensures i >= 0 ==> s[i] == c
    ensures forall j :: 0 <= j < (if i < 0 then |s| else i) ==> s[j] != c
  {
    if s == [] then -1
    else if s[0] == c then 0
    else
      var rest := Index(s[1..], c);
      assert forall j :: 0 < j < |s| ==> s[j] == s[1..][j - 1];
      if rest < 0 then -1 else rest + 1
  }

  /** The last position of c, or -1. */
  function LastIndex(s: string, c: char): (i: int)
    ensures -1 <= i < |s|
    ensures i >= 0 ==> s[i] == c
    ensures forall j :: i < j < |s| ==> s[j] != c
  {
    if s == [] || s[|s| - 1] == c then |s| - 1
    else LastIndex(s[..|s| - 1], c)
  }

  lemma LastIndexIs(s: string, c: char, k: nat)
    requires k < |s| && s[k] == c && c !in s[k + 1..]
    ensures LastIndex(s, c) == k
  {
  }

  lemma LastIndexAtLeast(s: string, c: char, k: nat)
    requires k < |s| && s[k] == c
    ensures LastIndex(s, c) >= k
  {
  }

  lemma IndexIs(s: string, c: char, k: nat)
    requires k < |s| && s[k] == c && c !in s[..k]
    ensures Index(s, c) == k
  {
  }

  /** Cutting a string at the first occurrence of a character. */
  lemma FirstCut(head: string, c: char, tail: string)
    requires c !in head
    ensures var s := head + [c] + tail;
            Index(s, c) == |head| && s[..|head|] == head && s[|head| + 1..] == tail
  {
    var s := head + [c] + tail;
    assert s[..|head|] == head;
    IndexIs(s, c, |head|);
  }

  lemma SuffixLast(s: string, suffix: string)
    requires HasSuffix(s, suffix) && suffix != ""
    ensures s[|s| - 1] == suffix[|suffix| - 1]
  {
  }

  lemma AppendedSuffix(stem: string, suffix: string)
    ensures HasSuffix(stem + suffix, suffix) && (stem + suffix)[..|stem|] == stem
  {
  }

  lemma NotPrefix(key: string, prefix: string, k: nat)
    requires k < |prefix| && k < |key| && key[k] != prefix[k]
    ensures !HasPrefix(key, prefix)
  {
  }

  // ---- trimming ----

  function TrimLeft(s: string, drop: char -> bool): (r: string)
    ensures |r| <= |s| && r == s[|s| - |r|..]
    ensures r != [] ==> !drop(r[0])
    ensures forall i :: 0 <= i < |s| - |r| ==> drop(s[i])
  {
    if s == [] || !drop(s[0]) then s else TrimLeft(s[1..], drop)
  }

  function TrimRight(s: string, drop: char -> bool): (r: string)
    ensures |r| <= |s| && r == s[..|r|]
    ensures r != [] ==> !drop(r[|r| - 1])
    ensures forall i :: |r| <= i < |s| ==> drop(s[i])
  {
    if s == [] || !drop(s[|s| - 1]) then s else TrimRight(s[..|s| - 1], drop)
  }

  function Trim(s: string, drop: char -> bool): (r: string)
    ensures |r| <= |s|
    ensures r != [] ==> !drop(r[0]) && !drop(r[|r| - 1])
  {
    var left := TrimLeft(s, drop);
    var r := TrimRight(left, drop);
    assert r != [] ==> r[0] == left[0];
    r
  }

  lemma TrimStable(s: string, drop: char -> bool)
    requires s != [] ==> !drop(s[0]) && !drop(s[|s| - 1])
    ensures Trim(s, drop) == s
  {
  }

  lemma {:induction false} TrimLeftIs(left: string, core: string, drop: char -> bool)
    requires (forall i :: 0 <= i < |left| ==> drop(left[i])) && core != "" && !drop(core[0])
    ensures TrimLeft(left + core, drop) == core
  {
    if left == "" {
      assert left + core == core;
    } else {
      assert (left + core)[1..] == left[1..] + core;
      TrimLeftIs(left[1..], core, drop);
    }
  }

  lemma {:induction false} TrimRightIs(core: string, right: string, drop: char -> bool)
    requires (forall i :: 0 <= i < |right| ==> drop(right[i])) && core != "" && !drop(core[|core| - 1])
    ensures TrimRight(core + right, drop) == core
  {
    if right == "" {
      assert core + right == core;
    } else {
      var n := |right| - 1;
      assert (core + right)[..|core| + n] == core + right[..n];
      TrimRightIs(core, right[..n], drop);
    }
  }

  /** Trimming takes exactly the droppable characters at the two ends. */
  lemma TrimsEnds(left: string, core: string, right: string, drop: char -> bool)
    requires (forall i :: 0 <= i < |left| ==> drop(left[i])) && forall i :: 0 <= i < |right| ==> drop(right[i])
    requires core != "" && !drop(core[0]) && !drop(core[|core| - 1])
    ensures Trim(left + core + right, drop) == core
  {
    hide TrimLeft, TrimRight;
    assert left + core + right == left + (core + right);
    TrimLeftIs(left, core + right, drop);
    TrimRightIs(core, right, drop);
  }

  function TrimSpace(s: string): string { Trim(s, IsSpace) }

  predicate IsSlash(c: char) { c == '/' }

  function TrimSlashes(s: string): string { Trim(s, IsSlash) }

  // ---- decimal numbers ----

  const MAX_INT64: int := 0x7FFF_FFFF_FFFF_FFFF
  const MIN_INT64: int := -0x8000_0000_0000_0000

  predicate AllDigits(s: string) { forall i :: 0 <= i < |s| ==> IsDigit(s[i]) }

  function DigitChar(d: nat): (c: char)
    requires d < 10
    ensures IsDigit(c) && DigitValue(c) == d
  {
    (('0' as int) + d) as char
  }

  function DigitValue(c: char): nat
    requires IsDigit(c)
  {
    (c as int) - ('0' as int)
  }

  function FormatNat(n: nat): (s: string)
    ensures s != "" && AllDigits(s)
  {
    if n < 10 then [DigitChar(n)] else FormatNat(n / 10) + [DigitChar(n % 10)]
  }

  lemma {:induction false} FormatNatValue(n: nat)
    ensures DigitsValue(FormatNat(n)) == n
  {
    if n < 10 {
      assert [DigitChar(n)][..0] == [];
    } else {
      var head, last := FormatNat(n / 10), DigitChar(n % 10);
      FormatNatValue(n / 10);
      assert (head + [last])[..|head|] == head;
    }
  }

  function Pow10(k: nat): nat { if k == 0 then 1 else 10 * Pow10(k - 1) }

  lemma {:induction false} FormatNatIsShort(n: nat, k: nat)
    requires k >= 1 && n < Pow10(k)
    ensures |FormatNat(n)| <= k
  {
    if n >= 10 {
      FormatNatIsShort(n / 10, k - 1);
    }
  }

  /** No 64-bit number needs more than nineteen digits. */
  lemma NineteenDigits(n: nat)
    requires n <= MAX_INT64
    ensures |FormatNat(n)| <= 19
  {
    if n >= 10 {
      assert Pow10(9) == 1_000_000_000;
      assert Pow10(18) == 1_000_000_000 * 1_000_000_000;
      FormatNatIsShort(n / 10, 18);
    }
  }

  /** strconv.FormatInt in base 10. */
  function FormatInt(n: int): string {
    if n < 0 then "-" + FormatNat(-n) else FormatNat(n)
  }

  function DigitsValue(s: string): nat
    requires AllDigits(s)
  {
    if s == [] then 0 else DigitsValue(s[..|s| - 1]) * 10 + DigitValue(s[|s| - 1])
  }

  /** strconv.ParseInt(s, 10, 64): an optional sign, then digits, in range. */
  function ParseInt64(s: string): (r: Option<int>)
    ensures r.Some? ==> MIN_INT64 <= r.value <= MAX_INT64
    ensures r.Some? ==> s != [] && forall i :: 0 < i < |s| ==> IsDigit(s[i])
  {
    var signed := s != [] && (s[0] == '-' || s[0] == '+');
    var digits := if signed then s[1..] else s;
    if digits == [] || !AllDigits(digits) then None
    else
      var magnitude: int := DigitsValue(digits);
      var n: int := if signed && s[0] == '-' then -magnitude else magnitude;
      if MIN_INT64 <= n <= MAX_INT64 then Some(n) else None
  }

  /** ParseInt64 undoes FormatInt on every non-negative 64-bit number. */
  lemma ParseFormat(n: nat)
    requires n <= MAX_INT64
    ensures ParseInt64(FormatInt(n)) == Some(n)
    ensures AllDigits(FormatInt(n))
  {
    hide FormatNat, DigitsValue;
    var s := FormatNat(n);
    FormatNatValue(n);
    assert IsDigit(s[0]);
  }

  /** On every number, with or without a plus sign: those of 64 bits are read back, the others are not read at all. */
  lemma ParsesExactlyInt64(n: int)
    ensures ParseInt64(FormatInt(n)) == if MIN_INT64 <= n <= MAX_INT64 then Some(n) else None
    ensures n >= 0 ==> ParseInt64("+" + FormatInt(n)) == ParseInt64(FormatInt(n))
  {
    hide FormatNat, DigitsValue;
    var s := FormatNat(if n < 0 then -n else n);
    FormatNatValue(if n < 0 then -n else n);
    assert IsDigit(s[0]);
    assert ("-" + s)[1..] == s && ("+" + s)[1..] == s;
  }
}
