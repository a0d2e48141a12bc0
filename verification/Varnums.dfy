/** Variable-length numbers of Standard MIDI Files, as src/keyto.c writes and src/mfin.c reads them. */
module Varnums {

  /** The continuation bytes of v, most significant first, at most n of them. */
  function Top(v: nat, n: nat): seq<int> {
    if v == 0 || n == 0 then [] else Top(v / 128, n - 1) + [128 + v % 128]
  }

  /** What writevarinum writes: at most eight bytes, all but the last with the high bit set. */
  function VarBytes(v: nat): seq<int> {
    Top(v / 128, 7) + [v % 128]
  }

  /** The bytes of a number below two to the 28th: its digits to the base 128, the highest first. */
  lemma VarBytesAre(v: nat)
    requires v < 0x1000_0000
    ensures VarBytes(v) ==
      if v < 0x80 then [v]
      else if v < 0x4000 then [0x80 + v / 0x80, v % 0x80]
      else if v < 0x20_0000 then [0x80 + v / 0x4000, 0x80 + v / 0x80 % 0x80, v % 0x80]
      else [0x80 + v / 0x20_0000, 0x80 + v / 0x4000 % 0x80, 0x80 + v / 0x80 % 0x80, v % 0x80]
  {
    var a, b, c := v / 0x80, v / 0x4000, v / 0x20_0000;
    assert a / 128 == b && b / 128 == c && c / 128 == 0;
    assert Top(a, 7) == if a == 0 then [] else Top(b, 6) + [128 + a % 128];
    assert Top(b, 6) == if b == 0 then [] else Top(c, 5) + [128 + b % 128];
    assert Top(c, 5) == if c == 0 then [] else Top(0, 4) + [128 + c % 128];
    assert Top(0, 4) == [];
  }

  function Pow128(n: nat): (p: nat)
    ensures p > 0
  {
    if n == 0 then 1 else 128 * Pow128(n - 1)
  }

  // ---------- Reading ----------

  datatype VarRead = VarEof | VarNumber(value: int, rest: seq<int>)

  /** The loop of readvarinum: seven more bits from each byte, until one without the high bit. */
  function ReadMore(value: int, d: seq<int>): VarRead
    decreases |d|
  {
    if d == [] then VarEof
    else if d[0] >= 128 then ReadMore(value * 128 + d[0] % 128, d[1..])
    else VarNumber(value * 128 + d[0] % 128, d[1..])
  }

  function ReadVar(d: seq<int>): VarRead {
    ReadMore(0, d)
  }

  /** Reading never lengthens the input. */
  lemma {:induction false} ReadShrinks(value: int, d: seq<int>)
    ensures ReadMore(value, d).VarNumber? ==> |ReadMore(value, d).rest| < |d|
    decreases |d|
  {
    if d != [] && d[0] >= 128 {
      ReadShrinks(value * 128 + d[0] % 128, d[1..]);
    }
  }

  ghost function Gathered(value: int, v: nat, n: nat): int {
    if v == 0 || n == 0 then value else Gathered(value, v / 128, n - 1) * 128 + v % 128
  }

  lemma {:induction false} ReadTop(value: int, v: nat, n: nat, s: seq<int>)
    ensures ReadMore(value, Top(v, n) + s) == ReadMore(Gathered(value, v, n), s)
    decreases n
  {
    if v == 0 || n == 0 {
      assert Top(v, n) + s == s;
    } else {
      var c := 128 + v % 128;
      assert Top(v, n) + s == Top(v / 128, n - 1) + ([c] + s);
      ReadTop(value, v / 128, n - 1, [c] + s);
      assert ([c] + s)[1..] == s;
    }
  }

  /** The number that the lowest n groups of seven bits of v make. */
  ghost function Lowest(v: nat, n: nat): nat {
    if n == 0 then 0 else Lowest(v / 128, n - 1) * 128 + v % 128
  }

  lemma {:induction false} LowestOfZero(n: nat)
    ensures Lowest(0, n) == 0
  {
    if n > 0 {
      LowestOfZero(n - 1);
    }
  }

  lemma {:induction false} GatheredIsLowest(v: nat, n: nat)
    ensures Gathered(0, v, n) == Lowest(v, n)
    decreases n
  {
    if v == 0 {
      LowestOfZero(n);
    } else if n > 0 {
      GatheredIsLowest(v / 128, n - 1);
    }
  }

  lemma {:induction false} LowestExact(v: nat, n: nat)
    ensures Lowest(v, n) < Pow128(n)
    ensures Lowest(v, n) == v <==> v < Pow128(n)
    decreases n
  {
    if n > 0 {
      LowestExact(v / 128, n - 1);
    }
  }

  /** Writing and then reading a number gives back its lowest 56 bits, whatever follows. */
  lemma VarRoundTrip(v: nat, s: seq<int>)
    ensures ReadVar(VarBytes(v) + s) == VarNumber(Lowest(v, 8), s)
  {
    var t := [v % 128] + s;
    assert VarBytes(v) + s == Top(v / 128, 7) + t;
    ReadTop(0, v / 128, 7, t);
    GatheredIsLowest(v / 128, 7);
    assert t[1..] == s;
  }

  /** So it gives the number back exactly when it is below 2 to the 56th. */
  lemma VarExact(v: nat, s: seq<int>)
    ensures ReadVar(VarBytes(v) + s) == VarNumber(v, s) <==> v < 0x100_0000_0000_0000
  {
    VarRoundTrip(v, s);
    LowestExact(v, 8);
    assert Pow128(4) == 0x1000_0000;
    assert Pow128(8) == 0x100_0000_0000_0000;
  }

  lemma {:induction false} TopAreBytes(v: nat, n: nat)
    ensures forall i :: 0 <= i < |Top(v, n)| ==> 128 <= Top(v, n)[i] < 256
    decreases n
  {
    if v != 0 && n != 0 {
      TopAreBytes(v / 128, n - 1);
    }
  }
}
