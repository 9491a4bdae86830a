/** Comparing and hashing serialized geometries. */
module GCompare {
  import opened Wrappers
  import opened Bytes
  import opened GHeader
  import Lookup3

  predicate IsVersion2(f: byte) { f / 64 % 2 == 1 }

  /** The header of either version; only version 2 has extended flags. */
  function HeaderBytes(f: byte): nat {
    8 + (if IsVersion2(f) && HasExtended(f) then 8 else 0) +
    if !HasBox(f) then 0
    else if IsGeodetic(f) then 24
    else 16 + (if HasZ(f) then 8 else 0) + if HasM(f) then 8 else 0
  }

  /** The header size agrees with that of the version 2 reader; in version 1 there is no room for extended flags. */
  lemma HeaderBytesAgree(f: byte)
    ensures IsVersion2(f) ==> HeaderBytes(f) == SizeOfHeader(f)
    ensures !IsVersion2(f) ==> HeaderBytes(f) == SizeOfHeader(f) - if HasExtended(f) then 8 else 0
  {
  }

  /** A serialized geometry is at least as long as its header. */
  predicate Whole(g: seq<byte>) {
    |g| >= 8 && |g| >= HeaderBytes(FlagsByte(g))
  }

  function BodyOf(g: seq<byte>): seq<byte>
    requires Whole(g)
  {
    g[HeaderBytes(FlagsByte(g))..]
  }

  function SridOf(g: seq<byte>): int
    requires Whole(g)
  {
    GetSrid(g[4..7])
  }

  // ---------- bytes ----------

  /** The sign of the first difference among the first `n` bytes. */
  function Memcmp(a: seq<byte>, b: seq<byte>, n: nat): int
    requires n <= |a| && n <= |b|
    decreases n
  {
    if n == 0 then 0
    else if a[0] < b[0] then -1
    else if a[0] > b[0] then 1
    else Memcmp(a[1..], b[1..], n - 1)
  }

  /** Lexicographic order, in which a prefix comes before the longer one. */
  function Lex(a: seq<byte>, b: seq<byte>): int {
    if a == [] then (if b == [] then 0 else -1)
    else if b == [] then 1
    else if a[0] < b[0] then -1
    else if a[0] > b[0] then 1
    else Lex(a[1..], b[1..])
  }

  function Min(m: nat, n: nat): nat { if m < n then m else n }

  lemma {:induction false} MemcmpIsLex(a: seq<byte>, b: seq<byte>)
    ensures var cmp := Memcmp(a, b, Min(|a|, |b|));
            Lex(a, b) == if cmp != 0 then cmp else if |a| < |b| then -1 else if |a| > |b| then 1 else 0
  {
    if a != [] && b != [] && a[0] == b[0] { MemcmpIsLex(a[1..], b[1..]); }
  }

  lemma {:induction false} LexAntisymmetric(a: seq<byte>, b: seq<byte>)
    ensures Lex(a, b) == -Lex(b, a) && (Lex(a, b) == 0 <==> a == b) && -1 <= Lex(a, b) <= 1
  {
    if a != [] && b != [] && a[0] == b[0] {
      LexAntisymmetric(a[1..], b[1..]);
      assert a == [a[0]] + a[1..] && b == [b[0]] + b[1..];
    }
  }

  lemma {:induction false} LexTransitive(a: seq<byte>, b: seq<byte>, c: seq<byte>)
    requires Lex(a, b) <= 0 && Lex(b, c) <= 0
    ensures Lex(a, c) <= 0
  {
    if a != [] && b != [] && c != [] && a[0] == b[0] == c[0] { LexTransitive(a[1..], b[1..], c[1..]); }
  }

  // ---------- the comparator ----------

  /** Nothing for a geometry without a box, otherwise the sortable hash of box and SRID. */
  type Key = seq<byte> -> Option<nat>

  function Compare(key: Key, g1: seq<byte>, g2: seq<byte>): int
    requires Whole(g1) && Whole(g2)
  {
    var b1, b2 := BodyOf(g1), BodyOf(g2);
    var f1, f2 := FlagsByte(g1), FlagsByte(g2);
    var sameSrid := g1[4] == g2[4] && g1[5] == g2[5] && g1[6] == g2[6];
    var cmp := Memcmp(b1, b2, Min(|b1|, |b2|));
    if |b1| == |b2| && sameSrid && cmp == 0 && HasZ(f1) == HasZ(f2) && HasM(f1) == HasM(f2) then 0
    else
      var k1, k2 := key(g1), key(g2);
      if k1.None? && k2.Some? then -1
      else if k1.Some? && k2.None? then 1
      else if k1.Some? && k2.Some? && k1.value > k2.value then 1
      else if k1.Some? && k2.Some? && k1.value < k2.value then -1
      else if |b1| != |b2| && cmp == 0 then (if |b1| < |b2| then -1 else 1)
      else if !sameSrid then (if SridOf(g1) > SridOf(g2) then 1 else -1)
      else if HasZ(f1) != HasZ(f2) then (if HasZ(f1) then 1 else -1)
      else if HasM(f1) != HasM(f2) then (if HasM(f1) then 1 else -1)
      else
        assert cmp != 0;
        if cmp > 0 then 1 else -1
  }

  /** The same SRID bytes, dimensions and body; box and other flags may differ. */
  predicate Same(g1: seq<byte>, g2: seq<byte>)
    requires Whole(g1) && Whole(g2)
  {
    g1[4..7] == g2[4..7] && HasZ(FlagsByte(g1)) == HasZ(FlagsByte(g2)) &&
    HasM(FlagsByte(g1)) == HasM(FlagsByte(g2)) && BodyOf(g1) == BodyOf(g2)
  }

  lemma SridSlice(g1: seq<byte>, g2: seq<byte>)
    requires |g1| >= 8 && |g2| >= 8
    ensures g1[4..7] == g2[4..7] <==> g1[4] == g2[4] && g1[5] == g2[5] && g1[6] == g2[6]
  {
  }

  lemma EqualIsSame(key: Key, g1: seq<byte>, g2: seq<byte>)
    requires Whole(g1) && Whole(g2)
    ensures Compare(key, g1, g2) == 0 <==> Same(g1, g2)
  {
    hide Memcmp, Lex, HasZ, HasM, HeaderBytes;
    SridSlice(g1, g2);
    MemcmpIsLex(BodyOf(g1), BodyOf(g2));
    LexAntisymmetric(BodyOf(g1), BodyOf(g2));
  }

  // ---------- antisymmetry ----------

  /** Different SRID bytes that read as the same number decide: the comparison says "less" both ways. */
  predicate Clash(key: Key, g1: seq<byte>, g2: seq<byte>)
    requires Whole(g1) && Whole(g2)
  {
    && g1[4..7] != g2[4..7] && SridOf(g1) == SridOf(g2) && key(g1) == key(g2)
    && !(BodyOf(g1) < BodyOf(g2)) && !(BodyOf(g2) < BodyOf(g1))
  }

  lemma {:induction false} MemcmpSymmetric(a: seq<byte>, b: seq<byte>, n: nat)
    requires n <= |a| && n <= |b|
    ensures Memcmp(a, b, n) == -Memcmp(b, a, n) && (Memcmp(a, b, n) == 0 <==> a[..n] == b[..n])
    decreases n
  {
    if n > 0 && a[0] == b[0] {
      MemcmpSymmetric(a[1..], b[1..], n - 1);
      assert a[1..][..n - 1] == a[1..n] && b[1..][..n - 1] == b[1..n];
      assert a[..n] == [a[0]] + a[1..n] && b[..n] == [b[0]] + b[1..n];
    }
  }

  lemma Antisymmetric(key: Key, g1: seq<byte>, g2: seq<byte>)
    requires Whole(g1) && Whole(g2)
    ensures Compare(key, g1, g2) == -Compare(key, g2, g1) <==> !Clash(key, g1, g2)
  {
    hide Memcmp, HasZ, HasM, HeaderBytes, GetSrid;
    SridSlice(g1, g2);
    var b1, b2 := BodyOf(g1), BodyOf(g2);
    MemcmpSymmetric(b1, b2, Min(|b1|, |b2|));
    Prefix(b1, b2);
    Prefix(b2, b1);
  }

  lemma Prefix(a: seq<byte>, b: seq<byte>)
    ensures a < b <==> |a| < |b| && a[..Min(|a|, |b|)] == b[..Min(|a|, |b|)]
  {
  }

  /** The SRID bytes that are ever written have the three highest bits clear, and never clash. */
  lemma WellFormedSrid(key: Key, g1: seq<byte>, g2: seq<byte>)
    requires Whole(g1) && Whole(g2) && g1[4] < 32 && g2[4] < 32
    ensures !Clash(key, g1, g2)
  {
    SridSlice(g1, g2);
    SridDigits(g1[4], g1[5], g1[6]);
    SridDigits(g2[4], g2[5], g2[6]);
    assert g1[4..7] == [g1[4], g1[5], g1[6]] && g2[4..7] == [g2[4], g2[5], g2[6]];
  }

  lemma SridDigits(x: byte, y: byte, z: byte)
    requires x < 32
    ensures var n := GetSrid([x, y, z]) % 2097152; x == n / 65536 && y == n / 256 % 256 && z == n % 256
  {
    hide GetSrid;
    SridUnsigned(x, y, z);
    Digits(x, y, z);
  }

  lemma SridUnsigned(x: byte, y: byte, z: byte)
    requires x < 32
    ensures GetSrid([x, y, z]) % 2097152 == 65536 * x + 256 * y + z
  {
  }

  lemma Digits(x: byte, y: byte, z: byte)
    ensures var n: int := 65536 * x + 256 * y + z; x == n / 65536 && y == n / 256 % 256 && z == n % 256
  {
    var n: int := 65536 * x + 256 * y + z;
    assert n / 256 == 256 * x + y;
  }

  // ---------- the order on one SRID and one dimension ----------

  /** Empty first, then by hash. */
  function KeyOrder(k1: Option<nat>, k2: Option<nat>): int {
    if k1.None? then (if k2.None? then 0 else -1)
    else if k2.None? then 1
    else if k1.value < k2.value then -1
    else if k1.value > k2.value then 1
    else 0
  }

  /** Lexicographic on emptiness, hash and body bytes. */
  function Ranked(k1: Option<nat>, b1: seq<byte>, k2: Option<nat>, b2: seq<byte>): int {
    if KeyOrder(k1, k2) != 0 then KeyOrder(k1, k2) else Lex(b1, b2)
  }

  predicate SameKind(g1: seq<byte>, g2: seq<byte>)
    requires Whole(g1) && Whole(g2)
  {
    g1[4..7] == g2[4..7] && HasZ(FlagsByte(g1)) == HasZ(FlagsByte(g2)) && HasM(FlagsByte(g1)) == HasM(FlagsByte(g2))
  }

  /** Lexicographic exactly when equal bodies do not come with different keys. */
  lemma CompareIsRanked(key: Key, g1: seq<byte>, g2: seq<byte>)
    requires Whole(g1) && Whole(g2) && SameKind(g1, g2)
    ensures Compare(key, g1, g2) == Ranked(key(g1), BodyOf(g1), key(g2), BodyOf(g2)) <==>
            (BodyOf(g1) == BodyOf(g2) ==> key(g1) == key(g2))
  {
    hide Memcmp, Lex, HasZ, HasM, HeaderBytes, GetSrid;
    SridSlice(g1, g2);
    MemcmpIsLex(BodyOf(g1), BodyOf(g2));
    LexAntisymmetric(BodyOf(g1), BodyOf(g2));
  }

  /** A total order: one of the two ways, equal only to itself, and transitive. */
  lemma RankedIsTotalOrder(k1: Option<nat>, b1: seq<byte>, k2: Option<nat>, b2: seq<byte>, k3: Option<nat>, b3: seq<byte>)
    ensures Ranked(k1, b1, k2, b2) == -Ranked(k2, b2, k1, b1)
    ensures Ranked(k1, b1, k2, b2) == 0 <==> k1 == k2 && b1 == b2
    ensures Ranked(k1, b1, k2, b2) <= 0 && Ranked(k2, b2, k3, b3) <= 0 ==> Ranked(k1, b1, k3, b3) <= 0
  {
    hide Lex;
    LexAntisymmetric(b1, b2);
    if Lex(b1, b2) <= 0 && Lex(b2, b3) <= 0 { LexTransitive(b1, b2, b3); }
  }

  // ---------- across SRIDs and dimensions ----------

  predicate Unrelated(g1: seq<byte>, g2: seq<byte>)
    requires Whole(g1) && Whole(g2)
  {
    !(BodyOf(g1) < BodyOf(g2)) && !(BodyOf(g2) < BodyOf(g1))
  }

  function Sign(x: int, y: int): int {
    if x < y then -1 else if x > y then 1 else 0
  }

  /** By SRID, then Z, then M, then body. */
  function RestOrder(g1: seq<byte>, g2: seq<byte>): int
    requires Whole(g1) && Whole(g2)
  {
    var f1, f2 := FlagsByte(g1), FlagsByte(g2);
    if SridOf(g1) != SridOf(g2) then Sign(SridOf(g1), SridOf(g2))
    else if HasZ(f1) != HasZ(f2) then (if HasZ(f1) then 1 else -1)
    else if HasM(f1) != HasM(f2) then (if HasM(f1) then 1 else -1)
    else Lex(BodyOf(g1), BodyOf(g2))
  }

  /** Equal keys: a shorter body that agrees so far comes first, and the rest decides otherwise. */
  function TieOrder(g1: seq<byte>, g2: seq<byte>): int
    requires Whole(g1) && Whole(g2)
  {
    if BodyOf(g1) < BodyOf(g2) then -1 else if BodyOf(g2) < BodyOf(g1) then 1 else RestOrder(g1, g2)
  }

  /** Serialized with an SRID as it is written, and a key that is the same for the same contents. */
  ghost predicate Orderly(key: Key, g1: seq<byte>, g2: seq<byte>) {
    && Whole(g1) && Whole(g2) && g1[4] < 32 && g2[4] < 32
    && (Same(g1, g2) ==> key(g1) == key(g2))
  }

  /** The comparison is by key, and by the tie rules where keys agree. */
  lemma CompareIsTiered(key: Key, g1: seq<byte>, g2: seq<byte>)
    requires Orderly(key, g1, g2)
    ensures Compare(key, g1, g2) ==
            if KeyOrder(key(g1), key(g2)) != 0 then KeyOrder(key(g1), key(g2)) else TieOrder(g1, g2)
  {
    hide Memcmp, Lex, HasZ, HasM, HeaderBytes, GetSrid;
    SridSlice(g1, g2);
    var b1, b2 := BodyOf(g1), BodyOf(g2);
    MemcmpSymmetric(b1, b2, Min(|b1|, |b2|));
    MemcmpIsLex(b1, b2);
    LexAntisymmetric(b1, b2);
    Prefix(b1, b2);
    Prefix(b2, b1);
    SameSrid(g1, g2);
  }

  lemma SameSrid(g1: seq<byte>, g2: seq<byte>)
    requires Whole(g1) && Whole(g2) && g1[4] < 32 && g2[4] < 32
    ensures SridOf(g1) == SridOf(g2) <==> g1[4..7] == g2[4..7]
  {
    hide GetSrid;
    SridSlice(g1, g2);
    SridDigits(g1[4], g1[5], g1[6]);
    SridDigits(g2[4], g2[5], g2[6]);
    assert g1[4..7] == [g1[4], g1[5], g1[6]] && g2[4..7] == [g2[4], g2[5], g2[6]];
  }

  lemma RestIsOrder(g1: seq<byte>, g2: seq<byte>, g3: seq<byte>)
    requires Whole(g1) && Whole(g2) && Whole(g3)
    ensures RestOrder(g1, g2) == -RestOrder(g2, g1)
    ensures RestOrder(g1, g2) <= 0 && RestOrder(g2, g3) <= 0 ==> RestOrder(g1, g3) <= 0
    ensures RestOrder(g1, g2) < 0 && RestOrder(g2, g3) < 0 ==> RestOrder(g1, g3) < 0
  {
    hide Lex, HasZ, HasM, HeaderBytes, GetSrid;
    var b1, b2, b3 := BodyOf(g1), BodyOf(g2), BodyOf(g3);
    LexAntisymmetric(b1, b2);
    LexAntisymmetric(b2, b3);
    LexAntisymmetric(b1, b3);
    if Lex(b1, b2) <= 0 && Lex(b2, b3) <= 0 { LexTransitive(b1, b2, b3); }
    if Lex(b3, b1) <= 0 && Lex(b1, b2) <= 0 { LexTransitive(b3, b1, b2); }
  }

  /** One body continues another, and the other two steps of the round are decided by the rest. */
  predicate Round(g1: seq<byte>, g2: seq<byte>, g3: seq<byte>)
    requires Whole(g1) && Whole(g2) && Whole(g3)
  {
    && BodyOf(g1) < BodyOf(g2)
    && Unrelated(g2, g3) && RestOrder(g2, g3) < 0
    && Unrelated(g3, g1) && RestOrder(g3, g1) < 0
  }

  predicate Cyclic(g1: seq<byte>, g2: seq<byte>, g3: seq<byte>)
    requires Whole(g1) && Whole(g2) && Whole(g3)
  {
    Round(g1, g2, g3) || Round(g2, g3, g1) || Round(g3, g1, g2)
  }

  /** Three ties in a round are exactly a cycle with one prefix step. */
  lemma TiesInRound(g1: seq<byte>, g2: seq<byte>, g3: seq<byte>)
    requires Whole(g1) && Whole(g2) && Whole(g3)
    ensures TieOrder(g1, g2) < 0 && TieOrder(g2, g3) < 0 && TieOrder(g3, g1) < 0 <==> Cyclic(g1, g2, g3)
  {
    hide RestOrder, HeaderBytes;
    RestIsOrder(g1, g2, g3);
    RestIsOrder(g3, g1, g2);
    PrefixChain(BodyOf(g1), BodyOf(g2), BodyOf(g3));
    PrefixChain(BodyOf(g2), BodyOf(g3), BodyOf(g1));
    PrefixChain(BodyOf(g3), BodyOf(g1), BodyOf(g2));
  }

  lemma PrefixChain(a: seq<byte>, b: seq<byte>, c: seq<byte>)
    ensures a < b && b < c ==> a < c && !(c < a)
    ensures !(a < b && b < a)
  {
  }

  lemma TieAntisymmetric(g1: seq<byte>, g2: seq<byte>)
    requires Whole(g1) && Whole(g2)
    ensures TieOrder(g1, g2) == -TieOrder(g2, g1)
  {
    hide RestOrder, HeaderBytes;
    RestIsOrder(g1, g2, g2);
    PrefixChain(BodyOf(g1), BodyOf(g2), BodyOf(g1));
  }

  /** A tie means the same SRID, dimensions and body, so nothing tells the two apart. */
  lemma TieIsSame(g1: seq<byte>, g2: seq<byte>, g3: seq<byte>)
    requires Whole(g1) && Whole(g2) && Whole(g3) && TieOrder(g1, g2) == 0
    ensures TieOrder(g2, g3) == TieOrder(g1, g3)
  {
    hide HeaderBytes, GetSrid;
    LexAntisymmetric(BodyOf(g1), BodyOf(g2));
  }

  /** The comparison fails to be transitive exactly for equal keys and such a cycle. */
  lemma TransitiveExactly(key: Key, g1: seq<byte>, g2: seq<byte>, g3: seq<byte>)
    requires Orderly(key, g1, g2) && Orderly(key, g2, g3) && Orderly(key, g1, g3)
    ensures Compare(key, g1, g2) < 0 && Compare(key, g2, g3) < 0 && !(Compare(key, g1, g3) < 0) <==>
            key(g1) == key(g2) == key(g3) && Cyclic(g1, g2, g3)
  {
    hide Compare, TieOrder, Cyclic, Whole, Same;
    CompareIsTiered(key, g1, g2);
    CompareIsTiered(key, g2, g3);
    CompareIsTiered(key, g1, g3);
    TiesInRound(g1, g2, g3);
    TieAntisymmetric(g1, g2);
    TieAntisymmetric(g2, g3);
    TieAntisymmetric(g1, g3);
    if TieOrder(g1, g3) == 0 { TieIsSame(g1, g3, g2); }
  }

  // ---------- the hash ----------

  function Bits(s: seq<byte>): seq<bv8> {
    seq(|s|, i requires 0 <= i < |s| => s[i] as bv8)
  }

  /** The hash of version 2: over the four bytes of the SRID and the body. */
  function Hash(g: seq<byte>): bv32
    requires Whole(g)
  {
    var h := Lookup3.HashLittle2(Bits(U32(SridOf(g) % 0x1_0000_0000) + BodyOf(g)), 0, 0);
    h.0 ^ h.1
  }

  /** Equal geometries have equal hashes, whatever boxes they carry. */
  lemma EqualHash(key: Key, g1: seq<byte>, g2: seq<byte>)
    requires Whole(g1) && Whole(g2) && Compare(key, g1, g2) == 0
    ensures Hash(g1) == Hash(g2)
  {
    hide Compare, Lookup3.HashLittle2;
    EqualIsSame(key, g1, g2);
  }
}
