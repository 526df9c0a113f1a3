/** Base relocations applied in place to the mapped image: little-endian fields of two,
    four or eight bytes, each adjusted by the distance the image was moved. */
module Relocations {

  type Byte = x: int | 0 <= x < 256

  // ----- Little-endian fields -----

  function Pow256(n: nat): (p: nat)
    ensures p >= 1
  {
    if n == 0 then 1 else 256 * Pow256(n - 1)
  }

  function FromBytes(s: seq<Byte>): nat {
    if s == [] then 0 else s[0] + 256 * FromBytes(s[1..])
  }

  function ToBytes(v: nat, n: nat): (s: seq<Byte>)
    ensures |s| == n
  {
    if n == 0 then [] else [v % 256] + ToBytes(v / 256, n - 1)
  }

  lemma {:induction false} ToFromBytes(s: seq<Byte>)
    ensures ToBytes(FromBytes(s), |s|) == s && FromBytes(s) < Pow256(|s|)
  {
    if s != [] {
      ToFromBytes(s[1..]);
      assert s == [s[0]] + s[1..];
    }
  }

  lemma {:induction false} FromToBytes(v: nat, n: nat)
    requires v < Pow256(n)
    ensures FromBytes(ToBytes(v, n)) == v
  {
    if n > 0 {
      FromToBytes(v / 256, n - 1);
      assert ToBytes(v, n)[1..] == ToBytes(v / 256, n - 1);
    }
  }

  lemma Multiple(q: int, m: nat)
    requires m > 0
    ensures q >= 1 ==> q * m >= m
    ensures q <= -1 ==> q * m + m <= 0
  {
  }

  lemma SameRemainder(u: int, v: nat, p: int, r: nat, m: nat)
    requires m > 0 && v < m && r < m && u * m + v == p * m + r
    ensures v == r
  {
    Multiple(u - p, m);
    assert (u - p) * m == u * m - p * m;
  }

  lemma SameQuotient(u: int, v: nat, p: int, r: nat, m: nat)
    requires m > 0 && v < m && r < m && u * m + v == p * m + r
    ensures u == p
  {
    Multiple(u - p, m);
    assert (u - p) * m == u * m - p * m;
  }

  lemma DivTwice(x: nat, p: nat)
    requires p >= 1
    ensures x / (256 * p) == x / 256 / p
  {
    var q, r, u, v := x / 256, x % 256, x / 256 / p, x / 256 % p;
    var m := 256 * p;
    assert q == p * u + v;
    assert 256 * (p * u) == u * m;
    assert x == u * m + (256 * v + r);
    assert x == x / m * m + x % m;
    SameQuotient(x / m, x % m, u, 256 * v + r, m);
  }

  /** The byte at offset k is the one of weight 256^k. */
  lemma {:induction false} LittleEndian(s: seq<Byte>, k: nat)
    requires k < |s|
    ensures FromBytes(s) / Pow256(k) % 256 == s[k]
  {
    var rest := FromBytes(s[1..]);
    assert (s[0] + 256 * rest) / 256 == rest;
    if k == 0 {
      assert (s[0] + 256 * rest) % 256 == s[0];
    } else {
      LittleEndian(s[1..], k - 1);
      DivTwice(s[0] + 256 * rest, Pow256(k - 1));
    }
  }

  // ----- Relocation entries -----

  const HIGH: nat := 1
  const LOW: nat := 2
  const HIGHLOW: nat := 3
  const DIR64: nat := 10

  /** An entry: the offset of its field in the image, and its type. */
  datatype Entry = Entry(rva: nat, kind: nat)
  {
    function Width(): nat {
      if kind == HIGH || kind == LOW then 2 else if kind == HIGHLOW then 4 else if kind == DIR64 then 8 else 0
    }

    /** The entry has an effect on an image of n bytes; four bytes must be there, whatever
        the width. */
    predicate Active(n: nat) {
      Width() > 0 && rva + 4 <= n
    }

    /** x is a byte of the field. */
    predicate Touches(x: nat) {
      rva <= x < rva + Width()
    }
  }

  const K16: nat := 0x1_0000
  const K32: nat := 0x1_0000_0000
  const K64: nat := 0x1_0000_0000_0000_0000

  /** The new value of a field; HIGH holds the upper half of a 32-bit value whose lower half
      is taken to be zero. */
  function Patch(kind: nat, v: nat, delta: int): nat {
    if kind == HIGHLOW then (v + delta) % K32
    else if kind == DIR64 then (v + delta) % K64
    else if kind == HIGH then ((v * K16) % K32 + delta % K32) % K32 / K16
    else if kind == LOW then (v + delta % K16) % K16
    else v
  }

  /** The field in an image. */
  function Field(b: seq<Byte>, e: Entry): seq<Byte>
    requires e.rva + e.Width() <= |b|
  {
    b[e.rva..e.rva + e.Width()]
  }

  /** With a mapping of n bytes, the fields of active entries lie in the first size bytes. */
  ghost predicate InBounds(es: seq<Entry>, n: nat, size: nat) {
    forall i :: 0 <= i < |es| && es[i].Active(n) ==> es[i].rva + es[i].Width() <= size
  }

  /** What an entry does to memory, of which the first n bytes are the mapping. */
  function Apply(b: seq<Byte>, n: nat, e: Entry, delta: int): (r: seq<Byte>)
    requires e.Active(n) ==> e.rva + e.Width() <= |b|
    ensures |r| == |b|
  {
    if !e.Active(n) then b
    else b[..e.rva] + ToBytes(Patch(e.kind, FromBytes(Field(b, e)), delta), e.Width()) + b[e.rva + e.Width()..]
  }

  function ApplyAll(b: seq<Byte>, n: nat, es: seq<Entry>, delta: int): (r: seq<Byte>)
    requires InBounds(es, n, |b|)
    ensures |r| == |b|
    decreases |es|
  {
    if es == [] then b
    else
      assert InBounds(es[1..], n, |b|) by {
        assert forall i :: 0 <= i < |es[1..]| ==> es[1..][i] == es[i + 1];
      }
      ApplyAll(Apply(b, n, es[0], delta), n, es[1..], delta)
  }

  // ----- One field -----

  lemma WidthPowers()
    ensures Pow256(2) == K16 && Pow256(4) == K32 && Pow256(8) == K64
  {
    assert Pow256(4) == 256 * 256 * Pow256(2);
    assert Pow256(6) == 256 * 256 * Pow256(4);
    assert Pow256(8) == 256 * 256 * Pow256(6);
  }

  lemma PatchFits(e: Entry, v: nat, delta: int)
    requires e.Width() > 0
    ensures Patch(e.kind, v, delta) < Pow256(e.Width())
  {
    WidthPowers();
  }

  /** HIGH gains bits 16 to 31 of delta, modulo 2^16. */
  lemma PatchHigh(v: nat, delta: int)
    requires v < K16
    ensures Patch(HIGH, v, delta) == (v + delta % K32 / K16) % K16
  {
    var h, l := delta % K32 / K16, delta % K32 % K16;
    assert delta % K32 == h * K16 + l;
    assert (v * K16) % K32 == v * K16;
    var s := v + h;
    assert v * K16 + delta % K32 == s * K16 + l;
    if s < K16 {
      assert (s * K16 + l) % K32 == s * K16 + l;
    } else {
      assert (s * K16 + l) % K32 == (s - K16) * K16 + l;
    }
  }

  lemma Mod16(x: int, q: int, r: int)
    requires x == q * K16 + r && 0 <= r < K16
    ensures x % K16 == r && x / K16 == q
  {
  }

  lemma Mod32(x: int, q: int, r: int)
    requires x == q * K32 + r && 0 <= r < K32
    ensures x % K32 == r && x / K32 == q
  {
  }

  lemma Mod64(x: int, q: int, r: int)
    requires x == q * K64 + r && 0 <= r < K64
    ensures x % K64 == r && x / K64 == q
  {
  }

  lemma OppositeLow(delta: int)
    ensures delta % K16 + (-delta) % K16 == if delta % K16 == 0 then 0 else K16
  {
    var q, r := delta / K16, delta % K16;
    if r == 0 {
      Mod16(-delta, -q, 0);
    } else {
      Mod16(-delta, -q - 1, K16 - r);
    }
  }

  /** The upper halves of opposite distances cancel out, up to a borrow. */
  lemma OppositeHigh(delta: int)
    ensures delta % K32 / K16 + (-delta) % K32 / K16 ==
            if delta % K32 == 0 then 0 else if delta % K16 == 0 then K16 else K16 - 1
  {
    var q, d := delta / K32, delta % K32;
    var h, l := d / K16, d % K16;
    Mod16(delta, q * K16 + h, l);
    if d == 0 {
      Mod32(-delta, -q, 0);
    } else {
      Mod32(-delta, -q - 1, K32 - d);
      if l == 0 {
        Mod16(K32 - d, K16 - h, 0);
      } else {
        Mod16(K32 - d, K16 - h - 1, K16 - l);
      }
    }
  }

  lemma Carried(v: nat, h: nat, k: nat)
    ensures ((v + h) % K16 + k) % K16 == (v + h + k) % K16
  {
    var q, s := (v + h) / K16, v + h + k;
    Mod16((v + h) % K16 + k, s / K16 - q, s % K16);
  }

  lemma HighUndone(v: nat, delta: int)
    requires v < K16
    ensures Patch(HIGH, Patch(HIGH, v, delta), -delta) == v <==> delta % K16 == 0
  {
    var h, h' := delta % K32 / K16, (-delta) % K32 / K16;
    PatchHigh(v, delta);
    PatchHigh((v + h) % K16, -delta);
    Carried(v, h, h');
    OppositeHigh(delta);
    hide Patch;
    if delta % K32 == 0 {
      Mod16(delta, delta / K32 * K16, 0);
      Mod16(v + h + h', 0, v);
    } else if delta % K16 == 0 {
      Mod16(v + h + h', 1, v);
    } else if v == 0 {
      Mod16(v + h + h', 0, K16 - 1);
    } else {
      Mod16(v + h + h', 1, v - 1);
    }
  }

  /** Patching with the opposite distance undoes all but HIGH, and that only for distances
      without a lower half. */
  lemma PatchUndone(e: Entry, v: nat, delta: int)
    requires e.Width() > 0 && v < Pow256(e.Width())
    ensures Patch(e.kind, Patch(e.kind, v, delta), -delta) == v <==> e.kind != HIGH || delta % K16 == 0
  {
    WidthPowers();
    if e.kind == HIGH {
      HighUndone(v, delta);
    } else if e.kind == LOW {
      OppositeLow(delta);
      var q := (v + delta % K16) / K16;
      Mod16((v + delta % K16) % K16 + (-delta) % K16, (if delta % K16 == 0 then 0 else 1) - q, v);
    } else if e.kind == HIGHLOW {
      Mod32((v + delta) % K32 - delta, -((v + delta) / K32), v);
    } else {
      Mod64((v + delta) % K64 - delta, -((v + delta) / K64), v);
    }
  }

  // ----- All fields -----

  /** Fields of active entries share no byte. */
  ghost predicate Apart(es: seq<Entry>, n: nat) {
    forall i, j :: 0 <= i < j < |es| && es[i].Active(n) && es[j].Active(n)
      ==> es[i].rva + es[i].Width() <= es[j].rva || es[j].rva + es[j].Width() <= es[i].rva
  }

  ghost predicate Touched(es: seq<Entry>, n: nat, x: nat) {
    exists i :: 0 <= i < |es| && es[i].Active(n) && es[i].Touches(x)
  }

  /** The check for four bytes lets DIR64 entries write behind the mapping, four bytes at most:
      no byte there is written exactly if none begins in the last seven bytes. */
  lemma StaysInsideExact(es: seq<Entry>, n: nat)
    ensures InBounds(es, n, n + 4)
    ensures (forall x :: x >= n ==> !Touched(es, n, x)) <==>
            !exists i :: 0 <= i < |es| && es[i].Active(n) && es[i].kind == DIR64 && es[i].rva + 8 > n
  {
    if i :| 0 <= i < |es| && es[i].Active(n) && es[i].kind == DIR64 && es[i].rva + 8 > n {
      assert es[i].Touches(es[i].rva + 7);
      assert Touched(es, n, es[i].rva + 7);
    }
  }

  /** The image after relocation, said without reference to the order of the entries: every
      field is patched from its original value, and every other byte is as it was. */
  ghost predicate Relocated(b: seq<Byte>, c: seq<Byte>, n: nat, es: seq<Entry>, delta: int)
    requires InBounds(es, n, |b|)
  {
    && |c| == |b|
    && (forall i :: 0 <= i < |es| && es[i].Active(n) ==>
          FromBytes(Field(c, es[i])) == Patch(es[i].kind, FromBytes(Field(b, es[i])), delta))
    && (forall x :: 0 <= x < |b| && !Touched(es, n, x) ==> c[x] == b[x])
  }

  lemma ApplyIs(b: seq<Byte>, n: nat, e: Entry, delta: int)
    requires e.Active(n) && e.rva + e.Width() <= |b|
    ensures FromBytes(Field(Apply(b, n, e, delta), e)) == Patch(e.kind, FromBytes(Field(b, e)), delta)
    ensures forall x :: 0 <= x < |b| && !e.Touches(x) ==> Apply(b, n, e, delta)[x] == b[x]
  {
    var v := Patch(e.kind, FromBytes(Field(b, e)), delta);
    PatchFits(e, FromBytes(Field(b, e)), delta);
    FromToBytes(v, e.Width());
    assert Field(Apply(b, n, e, delta), e) == ToBytes(v, e.Width());
  }

  ghost predicate FieldPatched(e: Entry, b: seq<Byte>, n: nat, delta: int)
    requires e.rva + e.Width() <= |b|
  {
    FromBytes(Field(Apply(b, n, e, delta), e)) == Patch(e.kind, FromBytes(Field(b, e)), delta)
  }

  /** The check for four bytes passes over narrower fields at the end: a field that lies wholly
      in the image is relocated, in every image and by every distance, exactly when there are
      four bytes from where it begins. */
  lemma PatchedExact(e: Entry, n: nat)
    requires e.Width() > 0 && e.rva + e.Width() <= n
    ensures (forall b: seq<Byte>, delta: int :: |b| == n ==> FieldPatched(e, b, n, delta)) <==> e.rva + 4 <= n
  {
    if e.rva + 4 <= n {
      forall b: seq<Byte>, delta: int | |b| == n ensures FieldPatched(e, b, n, delta) {
        ApplyIs(b, n, e, delta);
      }
    } else {
      var b: seq<Byte> := seq(n, i => 0);
      assert Field(b, e) == [0, 0] && FromBytes([0, 0]) == 0 by {
        assert FromBytes([0, 0]) == 0 + 256 * FromBytes([0, 0][1..]);
      }
      PatchHigh(0, 0x1_0001);
      assert !FieldPatched(e, b, n, 0x1_0001);
    }
  }

  lemma SameField(b: seq<Byte>, c: seq<Byte>, e: Entry)
    requires |c| == |b| && e.rva + e.Width() <= |b|
    requires forall x :: 0 <= x < |b| && e.Touches(x) ==> c[x] == b[x]
    ensures Field(c, e) == Field(b, e)
  {
  }

  lemma {:induction false} ApplyAllRelocates(b: seq<Byte>, n: nat, es: seq<Entry>, delta: int)
    requires InBounds(es, n, |b|) && Apart(es, n)
    ensures Relocated(b, ApplyAll(b, n, es, delta), n, es, delta)
    decreases |es|
  {
    if es != [] {
      var e, rest := es[0], es[1..];
      assert forall i :: 0 <= i < |rest| ==> rest[i] == es[i + 1];
      var m := Apply(b, n, e, delta);
      var c := ApplyAll(m, n, rest, delta);
      ApplyAllRelocates(m, n, rest, delta);
      if e.Active(n) {
        ApplyIs(b, n, e, delta);
        forall x | 0 <= x < |b| && e.Touches(x) ensures c[x] == m[x] {
          assert !Touched(rest, n, x);
        }
        SameField(m, c, e);
      }
      forall i | 0 <= i < |es| && es[i].Active(n)
        ensures FromBytes(Field(c, es[i])) == Patch(es[i].kind, FromBytes(Field(b, es[i])), delta)
      {
        if i > 0 {
          SameField(b, m, es[i]);
          assert rest[i - 1] == es[i];
        }
      }
      forall x | 0 <= x < |b| && !Touched(es, n, x) ensures c[x] == b[x] {
        assert !Touched(rest, n, x);
      }
    }
  }

  // ----- What relocation is for -----

  /** The address of x behind the base, as a field holds it. */
  function Located(base: nat, x: int, m: nat): nat
    requires m > 0
  {
    (base + x) % m
  }

  /** Whatever the bytes at this place located behind the one base, they now locate behind the other. */
  ghost predicate Moved(b: seq<Byte>, c: seq<Byte>, at: nat, width: nat, m: nat, preferred: nat, actual: nat)
    requires at + width <= |b| == |c| && m > 0
  {
    forall x: int :: FromBytes(b[at..at + width]) == Located(preferred, x, m)
      ==> FromBytes(c[at..at + width]) == Located(actual, x, m)
  }

  /** The same for the upper half of a field of four bytes whose lower half is zero. */
  ghost predicate UpperMoved(b: seq<Byte>, c: seq<Byte>, at: nat, preferred: nat, actual: nat)
    requires at + 2 <= |b| == |c|
  {
    forall x: int :: 0x1_0000 * FromBytes(b[at..at + 2]) == Located(preferred, x, 0x1_0000_0000)
      ==> FromBytes(c[at..at + 2]) == Located(actual, x, 0x1_0000_0000) / 0x1_0000
  }

  /** What an entry is for: type 10 moves an address of eight bytes, type 3 one of four, type 2 the lower
      half of that and type 1 the upper one. */
  ghost predicate EntryMoved(b: seq<Byte>, c: seq<Byte>, e: Entry, preferred: nat, actual: nat)
    requires |b| == |c|
  {
    && (e.kind == 10 && e.rva + 8 <= |b| ==> Moved(b, c, e.rva, 8, 0x1_0000_0000_0000_0000, preferred, actual))
    && (e.kind == 3 && e.rva + 4 <= |b| ==> Moved(b, c, e.rva, 4, 0x1_0000_0000, preferred, actual))
    && (e.kind == 2 && e.rva + 2 <= |b| ==> Moved(b, c, e.rva, 2, 0x1_0000, preferred, actual))
    && (e.kind == 1 && e.rva + 2 <= |b| ==> UpperMoved(b, c, e.rva, preferred, actual))
  }

  ghost predicate AllMoved(b: seq<Byte>, c: seq<Byte>, n: nat, es: seq<Entry>, preferred: nat, actual: nat)
    requires |b| == |c|
  {
    forall i :: 0 <= i < |es| && es[i].rva + 4 <= n ==> EntryMoved(b, c, es[i], preferred, actual)
  }

  lemma ModAdd(x: int, y: int, q: int, m: nat)
    requires m > 0 && y == x + q * m
    ensures x % m == y % m
  {
    var p, u := x / m, y / m;
    assert (p + q) * m == p * m + q * m;
    SameRemainder(u, y % m, p + q, x % m, m);
  }

  lemma RemainderFirst(y: int, d: int, z: int, m: nat)
    requires m > 0 && z == y + d
    ensures (y % m + d) % m == z % m
  {
    var q := y / m;
    assert y == q * m + y % m;
    ModAdd(y % m + d, z, q, m);
  }

  lemma RemainderSecond(y: int, d: int, m: nat)
    requires m > 0
    ensures (y + d % m) % m == (y + d) % m
  {
    RemainderFirst(d, y, y + d, m);
    assert y + d % m == d % m + y;
  }

  lemma MovedBy(preferred: nat, actual: nat, x: int, m: nat)
    requires m > 0
    ensures (Located(preferred, x, m) + (actual - preferred)) % m == Located(actual, x, m)
  {
    RemainderFirst(preferred + x, actual - preferred, actual + x, m);
  }

  lemma UpperBy(v: nat, preferred: nat, actual: nat, x: int)
    requires v < K16 && K16 * v == Located(preferred, x, K32)
    ensures Patch(HIGH, v, actual - preferred) == Located(actual, x, K32) / K16
  {
    var delta := actual - preferred;
    assert (v * K16) % K32 == v * K16;
    MovedBy(preferred, actual, x, K32);
    RemainderSecond(v * K16, delta, K32);
  }

  lemma PatchMoves(b: seq<Byte>, c: seq<Byte>, n: nat, e: Entry, preferred: nat, actual: nat)
    requires |b| == |c| && e.Active(n) && e.rva + e.Width() <= |b|
    requires FromBytes(Field(c, e)) == Patch(e.kind, FromBytes(Field(b, e)), actual - preferred)
    ensures EntryMoved(b, c, e, preferred, actual)
  {
    var v := FromBytes(Field(b, e));
    ToFromBytes(Field(b, e));
    WidthPowers();
    if e.kind == HIGH {
      forall x: int | 0x1_0000 * v == Located(preferred, x, 0x1_0000_0000)
        ensures FromBytes(Field(c, e)) == Located(actual, x, 0x1_0000_0000) / 0x1_0000
      {
        UpperBy(v, preferred, actual, x);
      }
    } else {
      var m := if e.kind == LOW then K16 else if e.kind == HIGHLOW then K32 else K64;
      forall x: int | v == Located(preferred, x, m) ensures FromBytes(Field(c, e)) == Located(actual, x, m) {
        MovedBy(preferred, actual, x, m);
        RemainderSecond(v, actual - preferred, m);
      }
    }
  }

  lemma NoneMoved(b: seq<Byte>, c: seq<Byte>, e: Entry, preferred: nat, actual: nat)
    requires |b| == |c| && e.Width() == 0
    ensures EntryMoved(b, c, e, preferred, actual)
  {
  }

  /** Every address in a field that an entry is for is moved from the one base to the other. */
  lemma RelocationMoves(b: seq<Byte>, n: nat, es: seq<Entry>, preferred: nat, actual: nat)
    requires InBounds(es, n, |b|) && Apart(es, n)
    ensures AllMoved(b, ApplyAll(b, n, es, actual - preferred), n, es, preferred, actual)
  {
    var c := ApplyAll(b, n, es, actual - preferred);
    ApplyAllRelocates(b, n, es, actual - preferred);
    hide ApplyAll, Patch, EntryMoved, FromBytes, Touched, Apart;
    forall i | 0 <= i < |es| && es[i].rva + 4 <= n ensures EntryMoved(b, c, es[i], preferred, actual) {
      if es[i].Width() > 0 {
        PatchMoves(b, c, n, es[i], preferred, actual);
      } else {
        NoneMoved(b, c, es[i], preferred, actual);
      }
    }
  }

  /** Relocation determines the image. */
  lemma RelocatedUnique(b: seq<Byte>, c: seq<Byte>, c': seq<Byte>, n: nat, es: seq<Entry>, delta: int)
    requires InBounds(es, n, |b|) && Relocated(b, c, n, es, delta) && Relocated(b, c', n, es, delta)
    ensures c == c'
  {
    hide Patch, ToBytes, FromBytes, Pow256;
    forall x | 0 <= x < |b| ensures c[x] == c'[x] {
      if Touched(es, n, x) {
        var i :| 0 <= i < |es| && es[i].Active(n) && es[i].Touches(x);
        ToFromBytes(Field(c, es[i]));
        ToFromBytes(Field(c', es[i]));
        assert Field(c, es[i])[x - es[i].rva] == c[x] && Field(c', es[i])[x - es[i].rva] == c'[x];
      }
    }
  }

  lemma SameTouched(es: seq<Entry>, fs: seq<Entry>, n: nat, x: nat)
    requires forall e :: e in es ==> e in fs
    ensures Touched(es, n, x) ==> Touched(fs, n, x)
  {
    if i :| 0 <= i < |es| && es[i].Active(n) && es[i].Touches(x) {
      assert es[i] in fs;
    }
  }

  /** The order of the entries does not matter, nor does repeating the list differently:
      lists with the same members give the same image. */
  lemma OrderDoesNotMatter(b: seq<Byte>, n: nat, es: seq<Entry>, fs: seq<Entry>, delta: int)
    requires InBounds(es, n, |b|) && Apart(es, n) && InBounds(fs, n, |b|) && Apart(fs, n)
    requires forall e :: e in es <==> e in fs
    ensures ApplyAll(b, n, es, delta) == ApplyAll(b, n, fs, delta)
  {
    ApplyAllRelocates(b, n, es, delta);
    ApplyAllRelocates(b, n, fs, delta);
    var c := ApplyAll(b, n, fs, delta);
    forall i | 0 <= i < |es| && es[i].Active(n)
      ensures FromBytes(Field(c, es[i])) == Patch(es[i].kind, FromBytes(Field(b, es[i])), delta)
    {
      assert es[i] in fs;
    }
    forall x | 0 <= x < |b| && !Touched(es, n, x) ensures c[x] == b[x] {
      SameTouched(fs, es, n, x);
    }
    RelocatedUnique(b, ApplyAll(b, n, es, delta), c, n, es, delta);
  }

  ghost predicate AnyHigh(es: seq<Entry>, n: nat) {
    exists i :: 0 <= i < |es| && es[i].Active(n) && es[i].kind == HIGH
  }

  lemma FieldRestored(b: seq<Byte>, m: seq<Byte>, c: seq<Byte>, n: nat, es: seq<Entry>, delta: int, i: nat)
    requires InBounds(es, n, |b|) && Relocated(b, m, n, es, delta) && Relocated(m, c, n, es, -delta)
    requires i < |es| && es[i].Active(n)
    ensures Field(c, es[i]) == Field(b, es[i]) <==> es[i].kind != HIGH || delta % K16 == 0
  {
    ToFromBytes(Field(b, es[i]));
    ToFromBytes(Field(c, es[i]));
    PatchUndone(es[i], FromBytes(Field(b, es[i])), delta);
  }

  /** Images with equal fields and equal other bytes are equal. */
  lemma SameImage(b: seq<Byte>, c: seq<Byte>, n: nat, es: seq<Entry>)
    requires |c| == |b| && InBounds(es, n, |b|)
    requires forall i :: 0 <= i < |es| && es[i].Active(n) ==> Field(c, es[i]) == Field(b, es[i])
    requires forall x :: 0 <= x < |b| && !Touched(es, n, x) ==> c[x] == b[x]
    ensures c == b
  {
    forall x | 0 <= x < |b| ensures c[x] == b[x] {
      if Touched(es, n, x) {
        var i :| 0 <= i < |es| && es[i].Active(n) && es[i].Touches(x);
        assert Field(c, es[i])[x - es[i].rva] == c[x] && Field(b, es[i])[x - es[i].rva] == b[x];
      }
    }
  }

  lemma BackAgain(b: seq<Byte>, m: seq<Byte>, c: seq<Byte>, n: nat, es: seq<Entry>, delta: int)
    requires InBounds(es, n, |b|) && Relocated(b, m, n, es, delta) && Relocated(m, c, n, es, -delta)
    ensures c == b <==> delta % K16 == 0 || !AnyHigh(es, n)
  {
    if delta % K16 == 0 || !AnyHigh(es, n) {
      forall i | 0 <= i < |es| && es[i].Active(n) ensures Field(c, es[i]) == Field(b, es[i]) {
        FieldRestored(b, m, c, n, es, delta, i);
      }
      SameImage(b, c, n, es);
    } else {
      var i :| 0 <= i < |es| && es[i].Active(n) && es[i].kind == HIGH;
      FieldRestored(b, m, c, n, es, delta, i);
      assert Field(c, es[i]) != Field(b, es[i]);
    }
  }

  /** Relocating back restores the image exactly when the distance is a multiple of 2^16 or
      no HIGH entry has an effect. */
  lemma RelocatingBack(b: seq<Byte>, n: nat, es: seq<Entry>, delta: int)
    requires InBounds(es, n, |b|) && Apart(es, n)
    ensures ApplyAll(ApplyAll(b, n, es, delta), n, es, -delta) == b <==> delta % K16 == 0 || !AnyHigh(es, n)
  {
    hide Relocated;
    var m := ApplyAll(b, n, es, delta);
    ApplyAllRelocates(b, n, es, delta);
    ApplyAllRelocates(m, n, es, -delta);
    BackAgain(b, m, ApplyAll(m, n, es, -delta), n, es, delta);
  }

  lemma NothingMoved(b: seq<Byte>, n: nat, es: seq<Entry>, base: nat)
    ensures AllMoved(b, b, n, es, base, base)
  {
    forall i | 0 <= i < |es| && es[i].rva + 4 <= n ensures EntryMoved(b, b, es[i], base, base) {
    }
  }

  // ----- In place -----

  /** Writes a field of w bytes. */
  method Store(image: array<Byte>, at: nat, v: nat, w: nat)
    requires at + w <= image.Length
    modifies image
    ensures image[..] == old(image[..at]) + ToBytes(v, w) + old(image[at + w..])
  {
    var rest := v;
    for k := 0 to w
      invariant image[..at] == old(image[..at]) && image[at + k..] == old(image[at + k..])
      invariant image[at..at + k] + ToBytes(rest, w - k) == ToBytes(v, w)
    {
      image[at + k] := rest % 256;
      assert image[at..at + k + 1] == image[at..at + k] + [rest % 256];
      rest := rest / 256;
    }
    assert image[..] == image[..at] + image[at..at + w] + image[at + w..];
  }

  /** Loads a field of w bytes. */
  method Load(image: array<Byte>, at: nat, w: nat) returns (v: nat)
    requires at + w <= image.Length
    ensures v == FromBytes(image[at..at + w])
  {
    v := 0;
    for k := w downto 0
      invariant v == FromBytes(image[at + k..at + w])
    {
      assert image[at + k..at + w][1..] == image[at + k + 1..at + w];
      v := image[at + k] + 256 * v;
    }
  }

  /** Applies one entry to memory whose first bytes are the mapping. */
  method ApplyEntry(memory: array<Byte>, size: nat, entry: Entry, delta: int)
    requires size + 4 <= memory.Length
    modifies memory
    ensures memory[..] == Apply(old(memory[..]), size, entry, delta)
  {
    if entry.rva + 4 <= size && entry.Width() > 0 {
      var v := Load(memory, entry.rva, entry.Width());
      Store(memory, entry.rva, Patch(entry.kind, v, delta), entry.Width());
    }
  }

  /** Adjusts the image, preferred to be at one base and mapped at another. The bytes behind the
      mapping are part of memory, since the last entry may reach into them. */
  method ApplyRelocations(memory: array<Byte>, size: nat, preferredBase: nat, actualBase: nat, entries: seq<Entry>)
    requires size + 4 <= memory.Length
    modifies memory
    ensures InBounds(entries, size, memory.Length)
    ensures memory[..] == if actualBase == preferredBase then old(memory[..])
                          else ApplyAll(old(memory[..]), size, entries, actualBase - preferredBase)
    ensures Apart(entries, size) ==> AllMoved(old(memory[..]), memory[..], size, entries, preferredBase, actualBase)
  {
    hide AllMoved, Apart;
    ghost var b := memory[..];
    if actualBase == preferredBase {
      NothingMoved(b, size, entries, actualBase);
      return;
    }
    var delta := actualBase - preferredBase;
    assert entries[0..] == entries;
    for i := 0 to |entries|
      invariant InBounds(entries[i..], size, memory.Length)
      invariant ApplyAll(memory[..], size, entries[i..], delta) == ApplyAll(old(memory[..]), size, entries, delta)
    {
      hide Apply;
      assert entries[i..][0] == entries[i] && entries[i..][1..] == entries[i + 1..];
      ApplyEntry(memory, size, entries[i], delta);
    }
    if Apart(entries, size) {
      RelocationMoves(b, size, entries, preferredBase, actualBase);
    }
  }
}
