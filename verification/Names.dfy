/** C strings of 7-bit characters, strcmp and strncmp, and the four-byte hash of
    include/alist.h. */
module Names {

  type Byte = b: int | 0 <= b < 0x100

  /** A C string without its terminating NUL. */
  type Name = seq<Byte>

  predicate Ascii(s: Name) {
    forall i :: 0 <= i < |s| ==> 0 < s[i] < 0x80
  }

  /** Any C string: no NUL inside. */
  predicate Text(s: Name) {
    forall i :: 0 <= i < |s| ==> 0 < s[i]
  }

  /** The character at position `i`, the terminator just behind the last one. */
  function At(s: Name, i: nat): Byte {
    if i < |s| then s[i] else 0
  }

  /** The sign of strncmp(a, b, n). */
  function StrNCmp(a: Name, b: Name, n: nat): (c: int)
    ensures -1 <= c <= 1
    decreases n
  {
    if n == 0 || (a == [] && b == []) then 0
    else if At(a, 0) < At(b, 0) then -1
    else if At(a, 0) > At(b, 0) then 1
    else if a == [] || b == [] then 0
    else StrNCmp(a[1..], b[1..], n - 1)
  }

  /** The sign of strcmp(a, b). */
  function StrCmp(a: Name, b: Name): (c: int)
    ensures -1 <= c <= 1
    decreases |a|
  {
    if a == [] && b == [] then 0
    else if At(a, 0) < At(b, 0) then -1
    else if At(a, 0) > At(b, 0) then 1
    else if a == [] || b == [] then 0
    else StrCmp(a[1..], b[1..])
  }

  predicate Prefix(a: Name, b: Name) {
    a <= b
  }

  predicate Less(a: Name, b: Name) {
    StrCmp(a, b) < 0
  }

  /** The characters at the first difference decide strcmp, and a proper prefix
      comes first. */
  lemma {:induction false} CmpFirst(a: Name, b: Name, k: nat)
    requires Text(a) && Text(b) && k <= |a| && k <= |b| && a[..k] == b[..k]
    ensures k == |a| && k == |b| ==> StrCmp(a, b) == 0
    ensures k == |a| && k < |b| ==> StrCmp(a, b) == -1
    ensures k < |a| && k == |b| ==> StrCmp(a, b) == 1
    ensures k < |a| && k < |b| && a[k] != b[k] ==> StrCmp(a, b) == if a[k] < b[k] then -1 else 1
    decreases k
  {
    if k == 0 {
    } else {
      assert a[0] == a[..k][0] == b[..k][0] == b[0];
      assert a[1..][..k - 1] == a[..k][1..] && b[1..][..k - 1] == b[..k][1..];
      CmpFirst(a[1..], b[1..], k - 1);
    }
  }

  // ---- strcmp is a total order, strncmp follows it ------------------------

  lemma {:induction false} CmpText(a: Name, b: Name)
    requires Text(a) && Text(b)
    ensures StrCmp(a, b) == 0 <==> a == b
    ensures StrCmp(b, a) == -StrCmp(a, b)
    decreases |a|
  {
    if a == [] || b == [] || a[0] != b[0] {
    } else {
      CmpText(a[1..], b[1..]);
      assert a == [a[0]] + a[1..] && b == [b[0]] + b[1..];
    }
  }

  lemma {:induction false} CmpTrans(a: Name, b: Name, c: Name)
    requires Text(a) && Text(b) && Text(c) && StrCmp(a, b) <= 0 && StrCmp(b, c) <= 0
    ensures StrCmp(a, c) <= 0
    ensures StrCmp(a, b) < 0 || StrCmp(b, c) < 0 ==> StrCmp(a, c) < 0
    decreases |b|
  {
    if a == [] || b == [] || c == [] || a[0] != b[0] || b[0] != c[0] {
    } else {
      CmpTrans(a[1..], b[1..], c[1..]);
    }
  }

  lemma LessTrans(a: Name, b: Name, c: Name)
    requires Text(a) && Text(b) && Text(c) && Less(a, b) && Less(b, c)
    ensures Less(a, c)
  {
    CmpTrans(a, b, c);
  }

  /** Going up in a sorted list, a probe compares greater, then equal, then less. */
  lemma {:induction false} NCmpFalls(probe: Name, a: Name, b: Name, n: nat)
    requires Text(probe) && Text(a) && Text(b) && Less(a, b)
    ensures StrNCmp(probe, a, n) >= StrNCmp(probe, b, n)
    decreases n
  {
    if n == 0 || probe == [] || a == [] || b == [] || probe[0] != a[0] || a[0] != b[0] {
    } else {
      NCmpFalls(probe[1..], a[1..], b[1..], n - 1);
    }
  }

  /** strncmp over the probe's own length: equal means that the probe is a prefix. */
  lemma {:induction false} NCmpPrefix(probe: Name, b: Name)
    requires Text(probe) && Text(b)
    ensures StrNCmp(probe, b, |probe|) == 0 <==> Prefix(probe, b)
    ensures StrNCmp(probe, b, |probe|) != 0 ==> StrCmp(probe, b) == StrNCmp(probe, b, |probe|)
    ensures Prefix(probe, b) ==> StrCmp(probe, b) <= 0 && (StrCmp(probe, b) == 0 <==> |b| == |probe|)
    decreases |probe|
  {
    if probe == [] || b == [] || probe[0] != b[0] {
    } else {
      NCmpPrefix(probe[1..], b[1..]);
      assert probe == [probe[0]] + probe[1..] && b == [b[0]] + b[1..];
    }
  }

  /** A difference within the first characters decides the whole comparison. */
  lemma {:induction false} NCmpShort(a: Name, b: Name, m: nat, n: nat)
    requires m <= n && StrNCmp(a, b, m) != 0
    ensures StrNCmp(a, b, n) == StrNCmp(a, b, m)
    decreases m
  {
    if m == 0 || a == [] || b == [] || a[0] != b[0] {
    } else {
      NCmpShort(a[1..], b[1..], m - 1, n - 1);
    }
  }

  // ---- The hash -----------------------------------------------------------

  const B3 := 0x100_0000
  const B2 := 0x1_0000
  const B1 := 0x100
  const WORD := 0x1_0000_0000

  /** cs_alist_hash: the first four characters, big end first, as an unsigned
      32-bit word.  The second result is the mask of the characters that are
      there, given by the value of its lowest set bit: `x & mask` is Masked(x, m). */
  function CsHash(s: Name): (int, int) {
    if At(s, 0) == 0 then (0, WORD)
    else if At(s, 1) == 0 then (At(s, 0) * B3, B3)
    else if At(s, 2) == 0 then (At(s, 0) * B3 + At(s, 1) * B2, B2)
    else
      (At(s, 0) * B3 + At(s, 1) * B2 + At(s, 2) * B1 + At(s, 3), if At(s, 3) != 0 then 1 else B1)
  }

  function Hash(s: Name): int {
    CsHash(s).0
  }

  /** `x & mask` for a mask of leading ones. */
  function Masked(x: int, low: int): int
    requires low > 0
  {
    x / low * low
  }

  /** The difference of two unsigned words stored in a C int, by its sign. */
  function SignOf(d: int): int {
    var w := d % WORD;
    if w == 0 then 0 else if w < 0x8000_0000 then 1 else -1
  }

  /** The integer comparison of find_array_item. */
  function HashCmp(name: Name, hash: int): int {
    var (h, low) := CsHash(name);
    SignOf(Masked(h, low) - Masked(hash, low))
  }

  /** For 7-bit names the masked hashes are ordered like the first four characters. */
  lemma HashOrder(name: Name, item: Name)
    requires Ascii(name) && Ascii(item)
    ensures HashCmp(name, Hash(item)) == StrNCmp(name, item, if |name| < 4 then |name| else 4)
  {
    var n := if |name| < 4 then |name| else 4;
    Word(name);
    assert HashCmp(name, Hash(item)) == SignOf(Masked(Hash(name), LowBit(n)) - Masked(Hash(item), LowBit(n)));
    hide *;
    MaskName(name, n);
    MaskName(item, n);
    NCmpBytes(name, item, n);
    Word(item);
    LexWord(At(name, 0), At(name, 1), At(name, 2), At(name, 3), At(item, 0), At(item, 1), At(item, 2), At(item, 3), n);
  }

  lemma MaskName(s: Name, n: nat)
    requires Ascii(s) && n <= 4
    ensures Masked(Hash(s), LowBit(n)) == Kept(At(s, 0), At(s, 1), At(s, 2), At(s, 3), n)
  {
    Word(s);
    hide *;
    MaskBytes(At(s, 0), At(s, 1), At(s, 2), At(s, 3), n);
  }

  /** The lowest bit of a mask of `n` leading bytes. */
  function LowBit(n: nat): (b: int)
    ensures b > 0
  {
    if n == 0 then WORD else if n == 1 then B3 else if n == 2 then B2 else if n == 3 then B1 else 1
  }

  /** The characters kept by a mask of `n` leading bytes. */
  function Kept(a0: int, a1: int, a2: int, a3: int, n: nat): int {
    (if n > 0 then a0 * B3 else 0) + (if n > 1 then a1 * B2 else 0) + (if n > 2 then a2 * B1 else 0) + (if n > 3 then a3 else 0)
  }

  lemma MaskBytes(a0: int, a1: int, a2: int, a3: int, n: nat)
    requires 0 <= a0 < 0x80 && 0 <= a1 < 0x80 && 0 <= a2 < 0x80 && 0 <= a3 < 0x80 && n <= 4
    ensures Masked(a0 * B3 + a1 * B2 + a2 * B1 + a3, LowBit(n)) == Kept(a0, a1, a2, a3, n)
  {
    var x := a0 * B3 + a1 * B2 + a2 * B1 + a3;
    if n == 0 {
      assert x / WORD == 0;
    } else if n == 1 {
      assert x / B3 == a0;
    } else if n == 2 {
      assert x / B2 == a0 * B1 + a1;
    } else if n == 3 {
      assert x / B1 == a0 * B2 + a1 * B1 + a2;
    } else {
      assert x / 1 == x;
    }
  }

  lemma Word(s: Name)
    requires Ascii(s)
    ensures Hash(s) == At(s, 0) * B3 + At(s, 1) * B2 + At(s, 2) * B1 + At(s, 3)
    ensures CsHash(s).1 == LowBit(if |s| < 4 then |s| else 4)
    ensures forall i: nat :: At(s, i) < 0x80 && (At(s, i) == 0 <==> i >= |s|)
  {
  }

  /** Comparison of up to four characters, first difference first. */
  function Lex(a0: int, a1: int, a2: int, a3: int, b0: int, b1: int, b2: int, b3: int, n: nat): int {
    if n > 0 && a0 != b0 then (if a0 < b0 then -1 else 1)
    else if n > 1 && a1 != b1 then (if a1 < b1 then -1 else 1)
    else if n > 2 && a2 != b2 then (if a2 < b2 then -1 else 1)
    else if n > 3 && a3 != b3 then (if a3 < b3 then -1 else 1)
    else 0
  }

  lemma LexWord(a0: int, a1: int, a2: int, a3: int, b0: int, b1: int, b2: int, b3: int, n: nat)
    requires 0 <= a0 < 0x80 && 0 <= a1 < 0x80 && 0 <= a2 < 0x80 && 0 <= a3 < 0x80 && n <= 4
    requires 0 <= b0 < 0x80 && 0 <= b1 < 0x80 && 0 <= b2 < 0x80 && 0 <= b3 < 0x80
    ensures SignOf(Kept(a0, a1, a2, a3, n) - Kept(b0, b1, b2, b3, n)) == Lex(a0, a1, a2, a3, b0, b1, b2, b3, n)
  {
    var d := Kept(a0, a1, a2, a3, n) - Kept(b0, b1, b2, b3, n);
    assert -0x8000_0000 < d < 0x8000_0000;
    assert d % WORD == if d >= 0 then d else d + WORD;
  }

  lemma {:induction false} NCmpBytes(a: Name, b: Name, n: nat)
    requires Ascii(a) && Ascii(b) && n <= 4 && n <= |a|
    ensures StrNCmp(a, b, n) == Lex(At(a, 0), At(a, 1), At(a, 2), At(a, 3), At(b, 0), At(b, 1), At(b, 2), At(b, 3), n)
    decreases n
  {
    if n == 0 || b == [] || a[0] != b[0] {
    } else {
      var c, d := a[1..], b[1..];
      NCmpBytes(c, d, n - 1);
      assert At(c, 0) == At(a, 1) && At(c, 1) == At(a, 2) && At(c, 2) == At(a, 3);
      assert At(d, 0) == At(b, 1) && At(d, 1) == At(b, 2) && At(d, 2) == At(b, 3);
    }
  }
}
