/** The hash of Bob Jenkins' lookup3: three ways of reading a key, one function. */
module Lookup3 {

  datatype State = State(a: bv32, b: bv32, c: bv32)

  function Rot(x: bv32, k: nat): bv32
    requires 0 < k < 32
  {
    (x << k) | (x >> (32 - k))
  }

  function Add(x: bv32, y: bv32): bv32 { x + y }
  function Sub(x: bv32, y: bv32): bv32 { x - y }
  function Xor(x: bv32, y: bv32): bv32 { x ^ y }

  lemma SubAdd(x: bv32, y: bv32)
    ensures Add(Sub(x, y), y) == x
  {
    hide Add, Sub;
    Unfolded(x, y);
    SubAddUnfolded(x, y);
  }

  lemma AddSub(x: bv32, y: bv32)
    ensures Sub(Add(x, y), y) == x
  {
    hide Add, Sub;
    Unfolded(x, y);
    AddSubUnfolded(x, y);
  }

  lemma Unfolded(x: bv32, y: bv32)
    ensures Add(x, y) == x + y && Sub(x, y) == x - y
  {
  }

  lemma SubAddUnfolded(x: bv32, y: bv32)
    ensures Add(x - y, y) == x
  {
  }

  lemma AddSubUnfolded(x: bv32, y: bv32)
    ensures Sub(x + y, y) == x
  {
  }

  lemma XorXor(x: bv32, y: bv32)
    ensures Xor(Xor(x, y), y) == x
  {
  }

  // ---------- mix and final, line by line ----------

  /** One line of `mix`: `p -= q; p ^= rot(q, k); q += r`. The result is the new `p` and `q`. */
  function MixLine(p: bv32, q: bv32, r: bv32, k: nat): (bv32, bv32)
    requires 0 < k < 32
  {
    (Xor(Sub(p, q), Rot(q, k)), Add(q, r))
  }

  function Mix(s: State): State {
    var (a1, c1) := MixLine(s.a, s.c, s.b, 4);
    var (b1, a2) := MixLine(s.b, a1, c1, 6);
    var (c2, b2) := MixLine(c1, b1, a2, 8);
    var (a3, c3) := MixLine(a2, c2, b2, 16);
    var (b3, a4) := MixLine(b2, a3, c3, 19);
    var (c4, b4) := MixLine(c3, b3, a4, 4);
    State(a4, b4, c4)
  }

  /** One line of `final`: `p ^= q; p -= rot(q, k)`. */
  function FinalLine(p: bv32, q: bv32, k: nat): bv32
    requires 0 < k < 32
  {
    Sub(Xor(p, q), Rot(q, k))
  }

  function Final(s: State): State {
    var c1 := FinalLine(s.c, s.b, 14);
    var a1 := FinalLine(s.a, c1, 11);
    var b1 := FinalLine(s.b, a1, 25);
    var c2 := FinalLine(c1, b1, 16);
    var a2 := FinalLine(a1, c2, 4);
    var b2 := FinalLine(b1, a2, 14);
    var c3 := FinalLine(c2, b2, 24);
    State(a2, b2, c3)
  }

  // ---------- both are reversible ----------

  /** The line backwards: the old `p` and `q` from the new ones. */
  function UnmixLine(p: bv32, q: bv32, r: bv32, k: nat): (bv32, bv32)
    requires 0 < k < 32
  {
    var q0 := Sub(q, r);
    (Add(Xor(p, Rot(q0, k)), q0), q0)
  }

  lemma UnmixLineInverts(p: bv32, q: bv32, r: bv32, k: nat)
    requires 0 < k < 32
    ensures var (p', q') := MixLine(p, q, r, k); UnmixLine(p', q', r, k) == (p, q)
  {
    hide Add, Sub, Xor, Rot;
    AddSub(q, r);
    XorXor(Sub(p, q), Rot(q, k));
    SubAdd(p, q);
  }

  function UnfinalLine(p: bv32, q: bv32, k: nat): bv32
    requires 0 < k < 32
  {
    Xor(Add(p, Rot(q, k)), q)
  }

  lemma UnfinalLineInverts(p: bv32, q: bv32, k: nat)
    requires 0 < k < 32
    ensures UnfinalLine(FinalLine(p, q, k), q, k) == p
  {
    hide Add, Sub, Xor, Rot;
    SubAdd(Xor(p, q), Rot(q, k));
    XorXor(p, q);
  }

  function Unmix(s: State): State {
    var (c3, b3) := UnmixLine(s.c, s.b, s.a, 4);
    var (b2, a3) := UnmixLine(b3, s.a, c3, 19);
    var (a2, c2) := UnmixLine(a3, c3, b2, 16);
    var (c1, b1) := UnmixLine(c2, b2, a2, 8);
    var (b0, a1) := UnmixLine(b1, a2, c1, 6);
    var (a0, c0) := UnmixLine(a1, c1, b0, 4);
    State(a0, b0, c0)
  }

  function Unfinal(s: State): State {
    var c2 := UnfinalLine(s.c, s.b, 24);
    var b1 := UnfinalLine(s.b, s.a, 14);
    var a1 := UnfinalLine(s.a, c2, 4);
    var c1 := UnfinalLine(c2, b1, 16);
    var b0 := UnfinalLine(b1, a1, 25);
    var a0 := UnfinalLine(a1, c1, 11);
    var c0 := UnfinalLine(c1, b0, 14);
    State(a0, b0, c0)
  }

  /** Whatever was in the state before `mix` is still in it. */
  lemma UnmixInverts(s: State)
    ensures Unmix(Mix(s)) == s
  {
    hide MixLine, UnmixLine;
    var (a1, c1) := MixLine(s.a, s.c, s.b, 4);
    var (b1, a2) := MixLine(s.b, a1, c1, 6);
    var (c2, b2) := MixLine(c1, b1, a2, 8);
    var (a3, c3) := MixLine(a2, c2, b2, 16);
    var (b3, a4) := MixLine(b2, a3, c3, 19);
    UnmixLineInverts(s.a, s.c, s.b, 4);
    UnmixLineInverts(s.b, a1, c1, 6);
    UnmixLineInverts(c1, b1, a2, 8);
    UnmixLineInverts(a2, c2, b2, 16);
    UnmixLineInverts(b2, a3, c3, 19);
    UnmixLineInverts(c3, b3, a4, 4);
  }

  lemma UnfinalInverts(s: State)
    ensures Unfinal(Final(s)) == s
  {
    hide FinalLine, UnfinalLine;
    var c1 := FinalLine(s.c, s.b, 14);
    var a1 := FinalLine(s.a, c1, 11);
    var b1 := FinalLine(s.b, a1, 25);
    var c2 := FinalLine(c1, b1, 16);
    var a2 := FinalLine(a1, c2, 4);
    var b2 := FinalLine(b1, a2, 14);
    UnfinalLineInverts(s.c, s.b, 14);
    UnfinalLineInverts(s.a, c1, 11);
    UnfinalLineInverts(s.b, a1, 25);
    UnfinalLineInverts(c1, b1, 16);
    UnfinalLineInverts(a1, c2, 4);
    UnfinalLineInverts(b1, a2, 14);
    UnfinalLineInverts(c2, b2, 24);
  }

  // ---------- words ----------

  function At0(b: bv8): bv32 { b as bv32 }
  function At8(b: bv8): bv32 { (b as bv32) << 8 }
  function At16(b: bv8): bv32 { (b as bv32) << 16 }
  function At24(b: bv8): bv32 { (b as bv32) << 24 }

  /** Four bytes as a number, least significant first. */
  function Word(b0: bv8, b1: bv8, b2: bv8, b3: bv8): bv32 {
    Add(At0(b0), Add(At8(b1), Add(At16(b2), At24(b3))))
  }

  /** A 32-bit load from little-endian memory. */
  function Load32(b0: bv8, b1: bv8, b2: bv8, b3: bv8): bv32 {
    ((b3 as bv32) << 24) | ((b2 as bv32) << 16) | ((b1 as bv32) << 8) | (b0 as bv32)
  }

  /** A 16-bit load, widened. */
  function Load16(b0: bv8, b1: bv8): bv32 {
    ((b1 as bv32) << 8) | (b0 as bv32)
  }

  function TwoHalves(lo: bv32, hi: bv32): bv32 { lo + (hi << 16) }

  function Low8(x: bv32): bv32 { x & 0xff }
  function Low16(x: bv32): bv32 { x & 0xffff }
  function Low24(x: bv32): bv32 { x & 0xffffff }

  lemma HalfIsWord(b0: bv8, b1: bv8)
    ensures Load16(b0, b1) == Word(b0, b1, 0, 0)
  {
  }

  lemma HalfAndByteAreWord(b0: bv8, b1: bv8, b2: bv8)
    ensures Add(Load16(b0, b1), At16(b2)) == Word(b0, b1, b2, 0)
  {
  }

  lemma ByteIsWord(b0: bv8)
    ensures At0(b0) == Word(b0, 0, 0, 0)
  {
  }

  /** Equal words have equal bytes. */
  lemma WordInjective(b0: bv8, b1: bv8, b2: bv8, b3: bv8, c0: bv8, c1: bv8, c2: bv8, c3: bv8)
    requires Word(b0, b1, b2, b3) == Word(c0, c1, c2, c3)
    ensures b0 == c0 && b1 == c1 && b2 == c2 && b3 == c3
  {
  }

  lemma AddAssoc(x: bv32, y: bv32, z: bv32)
    ensures Add(Add(x, y), z) == Add(x, Add(y, z))
  {
    hide Add;
    Unfolded(x, y);
    Unfolded(y, z);
    AddAssocUnfolded(x, y, z);
  }

  lemma AddAssocUnfolded(x: bv32, y: bv32, z: bv32)
    ensures Add(x + y, z) == Add(x, y + z)
  {
  }

  lemma AddComm(x: bv32, y: bv32)
    ensures Add(x, y) == Add(y, x)
  {
  }

  // ---------- the function that is computed ----------

  /** Bytes behind the end count as zero. */
  function ByteAt(key: seq<bv8>, i: nat): bv8 {
    if i < |key| then key[i] else 0
  }

  function WordAt(key: seq<bv8>, i: nat): bv32 {
    Word(ByteAt(key, i), ByteAt(key, i + 1), ByteAt(key, i + 2), ByteAt(key, i + 3))
  }

  /** Adds the first three words of the key to the state. */
  function Absorb(key: seq<bv8>, s: State): State {
    State(Add(s.a, WordAt(key, 0)), Add(s.b, WordAt(key, 4)), Add(s.c, WordAt(key, 8)))
  }

  /** Blocks of twelve bytes are mixed, the last one is finalised; nothing left needs no mixing. */
  function Hash(key: seq<bv8>, s: State): State {
    if |key| > 12 then Hash(key[12..], Mix(Absorb(key, s)))
    else if key == [] then s
    else Final(Absorb(key, s))
  }

  /** A length as an unsigned 32-bit number. */
  function Low32(n: nat): bv32 {
    (n % 0x1_0000_0000) as bv32
  }

  function Init(length: nat, pc: bv32, pb: bv32): State {
    var x := 0xdeadbeef + Low32(length) + pc;
    State(x, x, x + pb)
  }

  /** The two hash values. */
  function HashLittle2(key: seq<bv8>, pc: bv32, pb: bv32): (bv32, bv32) {
    var s := Hash(key, Init(|key|, pc, pb));
    (s.c, s.b)
  }

  // ---------- words at a time ----------

  function Load32At(mem: seq<bv8>, i: nat): bv32
    requires i + 4 <= |mem|
  {
    Load32(mem[i], mem[i + 1], mem[i + 2], mem[i + 3])
  }

  /** The loads for `length` bytes reach to the end of the last word. */
  predicate Readable32(mem: seq<bv8>, length: nat) {
    (length + 3) / 4 * 4 <= |mem|
  }

  lemma LoadAt(mem: seq<bv8>, k: nat, len: nat, i: nat)
    requires i + 4 <= len && k + len <= |mem|
    ensures Load32At(mem, k + i) == WordAt(mem[k..k + len], i)
  {
  }

  /** What a load gives of a word that the key ends in, masked to the bytes of the key. */
  lemma MaskedAt(mem: seq<bv8>, k: nat, len: nat, i: nat)
    requires i < len && k + len <= |mem| && k + i + 4 <= |mem|
    ensures len == i + 1 ==> Low8(Load32At(mem, k + i)) == WordAt(mem[k..k + len], i)
    ensures len == i + 2 ==> Low16(Load32At(mem, k + i)) == WordAt(mem[k..k + len], i)
    ensures len == i + 3 ==> Low24(Load32At(mem, k + i)) == WordAt(mem[k..k + len], i)
  {
  }

  lemma NothingAt(x: bv32, key: seq<bv8>, i: nat)
    requires |key| <= i
    ensures Add(x, WordAt(key, i)) == x
  {
  }

  method HashWords(mem: seq<bv8>, length: nat, pc: bv32, pb: bv32) returns (pc': bv32, pb': bv32)
    requires length <= |mem| && Readable32(mem, length)
    ensures (pc', pb') == HashLittle2(mem[..length], pc, pb)
  {
    hide Load32, Word, Add, Mix, Final, Init, Absorb;
    ghost var key := mem[..length];
    var s := Init(length, pc, pb);
    ghost var init := s;
    var k, len := 0, length;
    while len > 12
      invariant 0 <= len && k + len == length && k % 4 == 0
      invariant Hash(key[k..], s) == Hash(key, init)
    {
      AbsorbWords(mem, k, len, s);
      assert key[k..] == mem[k..k + len] && key[k..][12..] == key[k + 12..];
      s := Mix(State(Add(s.a, Load32At(mem, k)), Add(s.b, Load32At(mem, k + 4)), Add(s.c, Load32At(mem, k + 8))));
      len := len - 12;
      k := k + 12;
    }
    assert key[k..] == mem[k..k + len];
    if len == 0 {
      return s.c, s.b;
    }
    var t := LastWords(mem, k, len, s);
    s := Final(t);
    return s.c, s.b;
  }

  lemma AbsorbWords(mem: seq<bv8>, k: nat, len: nat, s: State)
    requires 12 <= len && k + len <= |mem|
    ensures Absorb(mem[k..k + len], s) ==
            State(Add(s.a, Load32At(mem, k)), Add(s.b, Load32At(mem, k + 4)), Add(s.c, Load32At(mem, k + 8)))
  {
    hide Load32, Word, Add;
    LoadAt(mem, k, len, 0);
    LoadAt(mem, k, len, 4);
    LoadAt(mem, k, len, 8);
  }

  /** The last block: whole words, then one masked word. */
  method LastWords(mem: seq<bv8>, k: nat, len: nat, s: State) returns (t: State)
    requires 0 < len <= 12 && k % 4 == 0 && k + len <= |mem| && Readable32(mem, k + len)
    ensures t == Absorb(mem[k..k + len], s)
  {
    hide Load32, Word, Add, Low8, Low16, Low24;
    ghost var rest := mem[k..k + len];
    var a, b, c := s.a, s.b, s.c;
    NothingAt(s.a, [], 0);
    if len >= 4 { LoadAt(mem, k, len, 0); } else { MaskedAt(mem, k, len, 0); }
    if len >= 8 { LoadAt(mem, k, len, 4); } else if len > 4 { MaskedAt(mem, k, len, 4); } else { NothingAt(s.b, rest, 4); }
    if len >= 12 { LoadAt(mem, k, len, 8); } else if len > 8 { MaskedAt(mem, k, len, 8); } else { NothingAt(s.c, rest, 8); }
    match len {
    case 12 =>
      c := Add(c, Load32At(mem, k + 8)); b := Add(b, Load32At(mem, k + 4)); a := Add(a, Load32At(mem, k));
    case 11 =>
      c := Add(c, Low24(Load32At(mem, k + 8))); b := Add(b, Load32At(mem, k + 4)); a := Add(a, Load32At(mem, k));
    case 10 =>
      c := Add(c, Low16(Load32At(mem, k + 8))); b := Add(b, Load32At(mem, k + 4)); a := Add(a, Load32At(mem, k));
    case 9 =>
      c := Add(c, Low8(Load32At(mem, k + 8))); b := Add(b, Load32At(mem, k + 4)); a := Add(a, Load32At(mem, k));
    case 8 =>
      b := Add(b, Load32At(mem, k + 4)); a := Add(a, Load32At(mem, k));
    case 7 =>
      b := Add(b, Low24(Load32At(mem, k + 4))); a := Add(a, Load32At(mem, k));
    case 6 =>
      b := Add(b, Low16(Load32At(mem, k + 4))); a := Add(a, Load32At(mem, k));
    case 5 =>
      b := Add(b, Low8(Load32At(mem, k + 4))); a := Add(a, Load32At(mem, k));
    case 4 => a := Add(a, Load32At(mem, k));
    case 3 => a := Add(a, Low24(Load32At(mem, k)));
    case 2 => a := Add(a, Low16(Load32At(mem, k)));
    case 1 => a := Add(a, Low8(Load32At(mem, k)));
    }
    t := State(a, b, c);
  }

  // ---------- halves of words at a time ----------

  function Half(mem: seq<bv8>, i: nat): bv32
    requires i + 2 <= |mem|
  {
    Load16(mem[i], mem[i + 1])
  }

  function Halves(mem: seq<bv8>, i: nat): bv32
    requires i + 4 <= |mem|
  {
    TwoHalves(Half(mem, i), Half(mem, i + 2))
  }

  lemma HalvesAt(mem: seq<bv8>, k: nat, len: nat, i: nat)
    requires i + 4 <= len && k + len <= |mem|
    ensures Halves(mem, k + i) == WordAt(mem[k..k + len], i)
  {
  }

  /** One, two or three bytes left of a word, added as the fall-through cases add them. */
  lemma PartAt(mem: seq<bv8>, k: nat, len: nat, i: nat, x: bv32)
    requires i < len < i + 4 && k + len <= |mem|
    ensures var w := Add(x, WordAt(mem[k..k + len], i));
            && (len == i + 1 ==> Add(x, At0(mem[k + i])) == w)
            && (len == i + 2 ==> Add(x, Half(mem, k + i)) == w)
            && (len == i + 3 ==> Add(Add(x, At16(mem[k + i + 2])), Half(mem, k + i)) == w)
  {
    hide Word, Add, At0, At16, Load16;
    ByteIsWord(mem[k + i]);
    if len >= i + 2 { HalfIsWord(mem[k + i], mem[k + i + 1]); }
    if len == i + 3 {
      HalfAndByteAreWord(mem[k + i], mem[k + i + 1], mem[k + i + 2]);
      AddAssoc(x, At16(mem[k + i + 2]), Half(mem, k + i));
      AddComm(At16(mem[k + i + 2]), Half(mem, k + i));
    }
  }

  lemma AbsorbHalves(mem: seq<bv8>, k: nat, len: nat, s: State)
    requires 12 <= len && k + len <= |mem|
    ensures Absorb(mem[k..k + len], s) ==
            State(Add(s.a, Halves(mem, k)), Add(s.b, Halves(mem, k + 4)), Add(s.c, Halves(mem, k + 8)))
  {
    hide Word, Add, Halves;
    HalvesAt(mem, k, len, 0);
    HalvesAt(mem, k, len, 4);
    HalvesAt(mem, k, len, 8);
  }

  method HashHalves(mem: seq<bv8>, length: nat, pc: bv32, pb: bv32) returns (pc': bv32, pb': bv32)
    requires length <= |mem|
    ensures (pc', pb') == HashLittle2(mem[..length], pc, pb)
  {
    hide Word, Add, Mix, Final, Init, Absorb, Halves;
    ghost var key := mem[..length];
    var s := Init(length, pc, pb);
    ghost var init := s;
    var k, len := 0, length;
    while len > 12
      invariant 0 <= len && k + len == length
      invariant Hash(key[k..], s) == Hash(key, init)
    {
      AbsorbHalves(mem, k, len, s);
      assert key[k..] == mem[k..k + len] && key[k..][12..] == key[k + 12..];
      s := Mix(State(Add(s.a, Halves(mem, k)), Add(s.b, Halves(mem, k + 4)), Add(s.c, Halves(mem, k + 8))));
      len := len - 12;
      k := k + 12;
    }
    assert key[k..] == mem[k..k + len];
    if len == 0 {
      return s.c, s.b;
    }
    var t := LastHalves(mem, k, len, s);
    s := Final(t);
    return s.c, s.b;
  }

  method LastHalves(mem: seq<bv8>, k: nat, len: nat, s: State) returns (t: State)
    requires 0 < len <= 12 && k + len <= |mem|
    ensures t == Absorb(mem[k..k + len], s)
  {
    hide Word, Add, Halves, Half, At0, At16;
    ghost var rest := mem[k..k + len];
    var a, b, c := s.a, s.b, s.c;
    if len >= 4 { HalvesAt(mem, k, len, 0); } else { PartAt(mem, k, len, 0, a); }
    if len >= 8 { HalvesAt(mem, k, len, 4); } else if len > 4 { PartAt(mem, k, len, 4, b); } else { NothingAt(b, rest, 4); }
    if len >= 12 { HalvesAt(mem, k, len, 8); } else if len > 8 { PartAt(mem, k, len, 8, c); } else { NothingAt(c, rest, 8); }
    if len == 12 {
      c := Add(c, Halves(mem, k + 8)); b := Add(b, Halves(mem, k + 4)); a := Add(a, Halves(mem, k));
    } else if len >= 10 {
      if len == 11 { c := Add(c, At16(mem[k + 10])); }
      c := Add(c, Half(mem, k + 8)); b := Add(b, Halves(mem, k + 4)); a := Add(a, Halves(mem, k));
    } else if len >= 8 {
      if len == 9 { c := Add(c, At0(mem[k + 8])); }
      b := Add(b, Halves(mem, k + 4)); a := Add(a, Halves(mem, k));
    } else if len >= 6 {
      if len == 7 { b := Add(b, At16(mem[k + 6])); }
      b := Add(b, Half(mem, k + 4)); a := Add(a, Halves(mem, k));
    } else if len >= 4 {
      if len == 5 { b := Add(b, At0(mem[k + 4])); }
      a := Add(a, Halves(mem, k));
    } else if len >= 2 {
      if len == 3 { a := Add(a, At16(mem[k + 2])); }
      a := Add(a, Half(mem, k));
    } else {
      a := Add(a, At0(mem[k]));
    }
    t := State(a, b, c);
  }

  // ---------- bytes at a time ----------

  lemma AddUp(x: bv32, b0: bv8, b1: bv8, b2: bv8, b3: bv8)
    ensures Add(Add(Add(Add(x, At0(b0)), At8(b1)), At16(b2)), At24(b3)) == Add(x, Word(b0, b1, b2, b3))
  {
    hide Add, At0, At8, At16, At24;
    AddAssoc(Add(Add(x, At0(b0)), At8(b1)), At16(b2), At24(b3));
    AddAssoc(Add(x, At0(b0)), At8(b1), Add(At16(b2), At24(b3)));
    AddAssoc(x, At0(b0), Add(At8(b1), Add(At16(b2), At24(b3))));
  }

  lemma AddDown(x: bv32, b0: bv8, b1: bv8, b2: bv8, b3: bv8)
    ensures Add(Add(Add(Add(x, At24(b3)), At16(b2)), At8(b1)), At0(b0)) == Add(x, Word(b0, b1, b2, b3))
  {
    hide Add, At0, At8, At16, At24;
    var a, b, c, d := At0(b0), At8(b1), At16(b2), At24(b3);
    AddAssoc(Add(Add(x, d), c), b, a);
    AddAssoc(Add(x, d), c, Add(b, a));
    AddAssoc(x, d, Add(c, Add(b, a)));
    AddComm(d, Add(c, Add(b, a)));
    AddComm(c, Add(b, a));
    AddComm(b, a);
    AddAssoc(Add(a, b), c, d);
    AddAssoc(a, b, Add(c, d));
  }

  lemma NoByte(x: bv32)
    ensures Add(x, At0(0)) == x && Add(x, At8(0)) == x && Add(x, At16(0)) == x && Add(x, At24(0)) == x
  {
  }

  /** Adds the word at `i` byte by byte, as the main loop does. */
  method AddBytes(x: bv32, mem: seq<bv8>, i: nat) returns (y: bv32)
    requires i + 4 <= |mem|
    ensures y == Add(x, Word(mem[i], mem[i + 1], mem[i + 2], mem[i + 3]))
  {
    hide Add, At0, At8, At16, At24, Word;
    y := Add(x, At0(mem[i]));
    y := Add(y, At8(mem[i + 1]));
    y := Add(y, At16(mem[i + 2]));
    y := Add(y, At24(mem[i + 3]));
    AddUp(x, mem[i], mem[i + 1], mem[i + 2], mem[i + 3]);
  }

  /** Adds what the key has of the word at `i`, last byte first, as the falling cases do. */
  method AddLastBytes(x: bv32, rest: seq<bv8>, i: nat) returns (y: bv32)
    ensures y == Add(x, WordAt(rest, i))
  {
    hide Add, At0, At8, At16, At24, Word;
    y := x;
    NoByte(y);
    if |rest| > i + 3 { y := Add(y, At24(rest[i + 3])); }
    NoByte(y);
    if |rest| > i + 2 { y := Add(y, At16(rest[i + 2])); }
    NoByte(y);
    if |rest| > i + 1 { y := Add(y, At8(rest[i + 1])); }
    NoByte(y);
    if |rest| > i { y := Add(y, At0(rest[i])); }
    AddDown(x, ByteAt(rest, i), ByteAt(rest, i + 1), ByteAt(rest, i + 2), ByteAt(rest, i + 3));
  }

  method HashBytes(mem: seq<bv8>, length: nat, pc: bv32, pb: bv32) returns (pc': bv32, pb': bv32)
    requires length <= |mem|
    ensures (pc', pb') == HashLittle2(mem[..length], pc, pb)
  {
    hide Word, Add, Mix, Final, Init;
    ghost var key := mem[..length];
    var s := Init(length, pc, pb);
    ghost var init := s;
    var k, len := 0, length;
    while len > 12
      invariant 0 <= len && k + len == length
      invariant Hash(key[k..], s) == Hash(key, init)
    {
      var a := AddBytes(s.a, mem, k);
      var b := AddBytes(s.b, mem, k + 4);
      var c := AddBytes(s.c, mem, k + 8);
      assert State(a, b, c) == Absorb(key[k..], s) && key[k..][12..] == key[k + 12..];
      s := Mix(State(a, b, c));
      len := len - 12;
      k := k + 12;
    }
    if len == 0 {
      assert key[k..] == [];
      return s.c, s.b;
    }
    var c := AddLastBytes(s.c, mem[k..length], 8);
    var b := AddLastBytes(s.b, mem[k..length], 4);
    var a := AddLastBytes(s.a, mem[k..length], 0);
    assert key[k..] == mem[k..length];
    s := Final(State(a, b, c));
    return s.c, s.b;
  }

  /** The dispatch on byte order and on the address of the key. */
  method HashAt(mem: seq<bv8>, length: nat, address: nat, littleEndian: bool, pc: bv32, pb: bv32)
      returns (pc': bv32, pb': bv32)
    requires length <= |mem| && (littleEndian && address % 4 == 0 ==> Readable32(mem, length))
    ensures (pc', pb') == HashLittle2(mem[..length], pc, pb)
  {
    if littleEndian && address % 4 == 0 {
      pc', pb' := HashWords(mem, length, pc, pb);
    } else if littleEndian && address % 2 == 0 {
      pc', pb' := HashHalves(mem, length, pc, pb);
    } else {
      pc', pb' := HashBytes(mem, length, pc, pb);
    }
  }

  // ---------- no information is lost inside one block ----------

  lemma MixInjective(s: State, t: State)
    requires Mix(s) == Mix(t)
    ensures s == t
  {
    hide Mix, Unmix;
    UnmixInverts(s);
    UnmixInverts(t);
  }

  lemma FinalInjective(s: State, t: State)
    requires Final(s) == Final(t)
    ensures s == t
  {
    hide Final, Unfinal;
    UnfinalInverts(s);
    UnfinalInverts(t);
  }

  lemma AddInjective(x: bv32, y: bv32, w: bv32)
    requires Add(x, w) == Add(y, w)
    ensures x == y
  {
    hide Add, Sub;
    AddSub(x, w);
    AddSub(y, w);
  }

  lemma AbsorbInjective(key: seq<bv8>, s: State, t: State)
    requires Absorb(key, s) == Absorb(key, t)
    ensures s == t
  {
    hide Add, WordAt;
    AddInjective(s.a, t.a, WordAt(key, 0));
    AddInjective(s.b, t.b, WordAt(key, 4));
    AddInjective(s.c, t.c, WordAt(key, 8));
  }

  /** The same key takes different states to different states. */
  lemma {:induction false} HashInjective(key: seq<bv8>, s: State, t: State)
    requires Hash(key, s) == Hash(key, t)
    ensures s == t
    decreases |key|
  {
    hide Absorb, Mix, Final;
    if |key| > 12 {
      HashInjective(key[12..], Mix(Absorb(key, s)), Mix(Absorb(key, t)));
      MixInjective(Absorb(key, s), Absorb(key, t));
      AbsorbInjective(key, s, t);
    } else if key != [] {
      FinalInjective(Absorb(key, s), Absorb(key, t));
      AbsorbInjective(key, s, t);
    }
  }

  /** From one state, equal results of absorbing mean equal blocks. */
  lemma BlockInjective(k: seq<bv8>, l: seq<bv8>, s: State)
    requires |k| == |l| && Absorb(k, s) == Absorb(l, s)
    ensures forall i | 0 <= i < |k| && i < 12 :: k[i] == l[i]
  {
    hide Add, WordAt;
    WordsInjective(k, l, 0, s.a);
    WordsInjective(k, l, 4, s.b);
    WordsInjective(k, l, 8, s.c);
  }

  lemma WordsInjective(k: seq<bv8>, l: seq<bv8>, i: nat, x: bv32)
    requires |k| == |l| && Add(x, WordAt(k, i)) == Add(x, WordAt(l, i))
    ensures forall j | i <= j < i + 4 && j < |k| :: k[j] == l[j]
  {
    hide Add, Word;
    AddComm(x, WordAt(k, i));
    AddComm(x, WordAt(l, i));
    AddInjective(WordAt(k, i), WordAt(l, i), x);
    WordInjective(ByteAt(k, i), ByteAt(k, i + 1), ByteAt(k, i + 2), ByteAt(k, i + 3),
                  ByteAt(l, i), ByteAt(l, i + 1), ByteAt(l, i + 2), ByteAt(l, i + 3));
  }

  /** Equal-length keys that differ, but only inside one block of twelve, end in different states. */
  lemma {:induction false} OneBlockDiffers(k: seq<bv8>, l: seq<bv8>, block: nat, s: State)
    requires |k| == |l| && k != l
    requires forall i | 0 <= i < |k| && !(12 * block <= i < 12 * block + 12) :: k[i] == l[i]
    ensures Hash(k, s) != Hash(l, s)
    decreases |k|
  {
    hide Absorb, Mix, Final;
    var i :| 0 <= i < |k| && k[i] != l[i];
    if block == 0 {
      if Absorb(k, s) == Absorb(l, s) { BlockInjective(k, l, s); assert false; }
      if |k| > 12 {
        assert k[12..] == l[12..];
        if Hash(k, s) == Hash(l, s) {
          HashInjective(k[12..], Mix(Absorb(k, s)), Mix(Absorb(l, s)));
          MixInjective(Absorb(k, s), Absorb(l, s));
          assert false;
        }
      } else if Final(Absorb(k, s)) == Final(Absorb(l, s)) {
        FinalInjective(Absorb(k, s), Absorb(l, s));
        assert false;
      }
    } else {
      SameBlock(k, l, s);
      assert k[12..][i - 12] != l[12..][i - 12];
      OneBlockDiffers(k[12..], l[12..], block - 1, Mix(Absorb(k, s)));
    }
  }

  lemma SameBlock(k: seq<bv8>, l: seq<bv8>, s: State)
    requires |k| == |l| && forall i | 0 <= i < |k| && i < 12 :: k[i] == l[i]
    ensures Absorb(k, s) == Absorb(l, s)
  {
    hide Add, Word;
  }
}
