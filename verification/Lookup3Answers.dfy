/** Known answers of lookup3: those that its author published, and that of one letter. */
module Lookup3Answers {
  import opened Lookup3

  // ---------- the rotation: the top bits come back at the bottom, and nothing is lost ----------

  lemma Rot4(x: bv32)
    ensures Rot(x, 4) & 0xf == x >> 28 && Rot(x, 4) >> 4 == x & 0xfffffff
  {
  }

  lemma Rot6(x: bv32)
    ensures Rot(x, 6) & 0x3f == x >> 26 && Rot(x, 6) >> 6 == x & 0x3ffffff
  {
  }

  lemma Rot8(x: bv32)
    ensures Rot(x, 8) & 0xff == x >> 24 && Rot(x, 8) >> 8 == x & 0xffffff
  {
  }

  lemma Rot11(x: bv32)
    ensures Rot(x, 11) & 0x7ff == x >> 21 && Rot(x, 11) >> 11 == x & 0x1fffff
  {
  }

  lemma Rot14(x: bv32)
    ensures Rot(x, 14) & 0x3fff == x >> 18 && Rot(x, 14) >> 14 == x & 0x3ffff
  {
  }

  lemma Rot16(x: bv32)
    ensures Rot(x, 16) & 0xffff == x >> 16 && Rot(x, 16) >> 16 == x & 0xffff
  {
  }

  lemma Rot19(x: bv32)
    ensures Rot(x, 19) & 0x7ffff == x >> 13 && Rot(x, 19) >> 19 == x & 0x1fff
  {
  }

  lemma Rot24(x: bv32)
    ensures Rot(x, 24) & 0xffffff == x >> 8 && Rot(x, 24) >> 24 == x & 0xff
  {
  }

  lemma Rot25(x: bv32)
    ensures Rot(x, 25) & 0x1ffffff == x >> 7 && Rot(x, 25) >> 25 == x & 0x7f
  {
  }

  lemma RotIs(x: bv32)
    ensures Rot(x, 4) & 0xf == x >> 28 && Rot(x, 4) >> 4 == x & 0xfffffff
    ensures Rot(x, 6) & 0x3f == x >> 26 && Rot(x, 6) >> 6 == x & 0x3ffffff
    ensures Rot(x, 8) & 0xff == x >> 24 && Rot(x, 8) >> 8 == x & 0xffffff
    ensures Rot(x, 11) & 0x7ff == x >> 21 && Rot(x, 11) >> 11 == x & 0x1fffff
    ensures Rot(x, 14) & 0x3fff == x >> 18 && Rot(x, 14) >> 14 == x & 0x3ffff
    ensures Rot(x, 16) & 0xffff == x >> 16 && Rot(x, 16) >> 16 == x & 0xffff
    ensures Rot(x, 19) & 0x7ffff == x >> 13 && Rot(x, 19) >> 19 == x & 0x1fff
    ensures Rot(x, 24) & 0xffffff == x >> 8 && Rot(x, 24) >> 24 == x & 0xff
    ensures Rot(x, 25) & 0x1ffffff == x >> 7 && Rot(x, 25) >> 25 == x & 0x7f
  {
    hide Rot;
    Rot4(x);
    Rot6(x);
    Rot8(x);
    Rot11(x);
    Rot14(x);
    Rot16(x);
    Rot19(x);
    Rot24(x);
    Rot25(x);
  }

  // ---------- a text of three blocks ----------

  lemma FirstMix()
    ensures Mix(State(0x51232e53, 0x4e11322d, 0x3fce247f)) == State(0xf859ad7a, 0x04bc57ae, 0x40dddd7e)
  {
    assert MixLine(0x51232e53, 0x3fce247f, 0x4e11322d, 4) == (0xedb74e27, 0x8ddf56ac);
    assert MixLine(0x4e11322d, 0xedb74e27, 0x8ddf56ac, 6) == (0x0d8a6dfd, 0x7b96a4d3);
    assert MixLine(0x8ddf56ac, 0x0d8a6dfd, 0x7b96a4d3, 8) == (0x0a3915a2, 0x892112d0);
    assert MixLine(0x7b96a4d3, 0x0a3915a2, 0x892112d0, 16) == (0x64ff8508, 0x935a2872);
    assert MixLine(0x892112d0, 0x64ff8508, 0x935a2872, 19) == (0x0c62aa34, 0xf859ad7a);
    assert MixLine(0x935a2872, 0x0c62aa34, 0xf859ad7a, 4) == (0x40dddd7e, 0x04bc57ae);
  }

  lemma SecondMix()
    ensures Mix(State(0x6b7a11e8, 0x7321ce13, 0xa243569e)) == State(0x336aded2, 0x059f2642, 0xbd02ebd5)
  {
    assert MixLine(0x6b7a11e8, 0xa243569e, 0x7321ce13, 4) == (0xed03d2a0, 0x156524b1);
    assert MixLine(0x7321ce13, 0xed03d2a0, 0x156524b1, 6) == (0xc6e95348, 0x0268f751);
    assert MixLine(0x156524b1, 0xc6e95348, 0x0268f751, 8) == (0xa72899af, 0xc9524a99);
    assert MixLine(0x0268f751, 0xa72899af, 0xc9524a99, 16) == (0xc2effa8a, 0x707ae448);
    assert MixLine(0xc9524a99, 0xc2effa8a, 0x707ae448, 19) == (0xd2344770, 0x336aded2);
    assert MixLine(0x707ae448, 0xd2344770, 0x336aded2, 4) == (0xbd02ebd5, 0x059f2642);
  }

  lemma LastFinal()
    ensures Final(State(0x948b5244, 0x059f95a9, 0xbd02ebd5)) == State(0x9a837816, 0xce7226e6, 0x17770551)
  {
    assert FinalLine(0xbd02ebd5, 0x059f95a9, 14) == 0xd3333d15;
    assert FinalLine(0x948b5244, 0xd3333d15, 11) == 0xadcfc0b8;
    assert FinalLine(0x059f95a9, 0xadcfc0b8, 25) == 0x36f4b590;
    assert FinalLine(0xd3333d15, 0x36f4b590, 16) == 0x30375191;
    assert FinalLine(0xadcfc0b8, 0x30375191, 4) == 0x9a837816;
    assert FinalLine(0x36f4b590, 0x9a837816, 14) == 0xce7226e6;
    assert FinalLine(0x30375191, 0xce7226e6, 24) == 0x17770551;
  }

  /** "Four score and seven years ago" */
  function Speech(): (key: seq<bv8>)
    ensures |key| == 30
  {
    [0x46, 0x6f, 0x75, 0x72, 0x20, 0x73, 0x63, 0x6f, 0x72, 0x65, 0x20, 0x61] +
    [0x6e, 0x64, 0x20, 0x73, 0x65, 0x76, 0x65, 0x6e, 0x20, 0x79, 0x65, 0x61] +
    [0x72, 0x73, 0x20, 0x61, 0x67, 0x6f]
  }

  lemma FirstWords()
    ensures Add(0xdeadbf0d, Word(0x46, 0x6f, 0x75, 0x72)) == 0x51232e53
    ensures Add(0xdeadbf0d, Word(0x20, 0x73, 0x63, 0x6f)) == 0x4e11322d
    ensures Add(0xdeadbf0d, Word(0x72, 0x65, 0x20, 0x61)) == 0x3fce247f
  {
  }

  lemma FirstBlock()
    ensures Absorb([0x46, 0x6f, 0x75, 0x72, 0x20, 0x73, 0x63, 0x6f, 0x72, 0x65, 0x20, 0x61], State(0xdeadbf0d, 0xdeadbf0d, 0xdeadbf0d)) ==
            State(0x51232e53, 0x4e11322d, 0x3fce247f)
  {
    hide Word, Add;
    FirstWords();
  }

  lemma SecondWords()
    ensures Add(0xf859ad7a, Word(0x6e, 0x64, 0x20, 0x73)) == 0x6b7a11e8
    ensures Add(0x04bc57ae, Word(0x65, 0x76, 0x65, 0x6e)) == 0x7321ce13
    ensures Add(0x40dddd7e, Word(0x20, 0x79, 0x65, 0x61)) == 0xa243569e
  {
  }

  lemma SecondBlock()
    ensures Absorb([0x6e, 0x64, 0x20, 0x73, 0x65, 0x76, 0x65, 0x6e, 0x20, 0x79, 0x65, 0x61], State(0xf859ad7a, 0x04bc57ae, 0x40dddd7e)) ==
            State(0x6b7a11e8, 0x7321ce13, 0xa243569e)
  {
    hide Word, Add;
    SecondWords();
  }

  lemma EndWords()
    ensures Add(0x336aded2, Word(0x72, 0x73, 0x20, 0x61)) == 0x948b5244
    ensures Add(0x059f2642, Word(0x67, 0x6f, 0x00, 0x00)) == 0x059f95a9
    ensures Add(0xbd02ebd5, Word(0x00, 0x00, 0x00, 0x00)) == 0xbd02ebd5
  {
  }

  lemma EndBlock()
    ensures Absorb([0x72, 0x73, 0x20, 0x61, 0x67, 0x6f], State(0x336aded2, 0x059f2642, 0xbd02ebd5)) ==
            State(0x948b5244, 0x059f95a9, 0xbd02ebd5)
  {
    hide Word, Add;
    EndWords();
  }

  lemma BlockWords(block: seq<bv8>, rest: seq<bv8>, s: State)
    requires |block| == 12 || rest == []
    ensures Absorb(block + rest, s) == Absorb(block, s)
  {
    hide Word, Add;
  }

  lemma SpeechBlocks()
    ensures Absorb(Speech(), State(0xdeadbf0d, 0xdeadbf0d, 0xdeadbf0d)) == State(0x51232e53, 0x4e11322d, 0x3fce247f)
    ensures Absorb(Speech()[12..], State(0xf859ad7a, 0x04bc57ae, 0x40dddd7e)) == State(0x6b7a11e8, 0x7321ce13, 0xa243569e)
    ensures Absorb(Speech()[12..][12..], State(0x336aded2, 0x059f2642, 0xbd02ebd5)) ==
            State(0x948b5244, 0x059f95a9, 0xbd02ebd5)
  {
    hide Absorb;
    var first: seq<bv8> := [0x46, 0x6f, 0x75, 0x72, 0x20, 0x73, 0x63, 0x6f, 0x72, 0x65, 0x20, 0x61];
    var second: seq<bv8> := [0x6e, 0x64, 0x20, 0x73, 0x65, 0x76, 0x65, 0x6e, 0x20, 0x79, 0x65, 0x61];
    var last: seq<bv8> := [0x72, 0x73, 0x20, 0x61, 0x67, 0x6f];
    FirstBlock();
    SecondBlock();
    EndBlock();
    assert Speech() == first + (second + last);
    assert Speech()[12..] == second + last;
    assert Speech()[12..][12..] == last;
    BlockWords(first, second + last, State(0xdeadbf0d, 0xdeadbf0d, 0xdeadbf0d));
    BlockWords(second, last, State(0xf859ad7a, 0x04bc57ae, 0x40dddd7e));
  }

  lemma HashMixes(key: seq<bv8>, s: State)
    requires |key| > 12
    ensures Hash(key, s) == Hash(key[12..], Mix(Absorb(key, s)))
  {
  }

  lemma HashEnds(key: seq<bv8>, s: State)
    requires 0 < |key| <= 12
    ensures Hash(key, s) == Final(Absorb(key, s))
  {
  }

  lemma Lengths()
    ensures Low32(0) == 0 && Low32(1) == 1 && Low32(12) == 12 && Low32(30) == 30
  {
    assert 1 % 0x1_0000_0000 == 1 && 12 % 0x1_0000_0000 == 12 && 30 % 0x1_0000_0000 == 30;
  }

  lemma SpeechInit()
    ensures Init(30, 0, 0) == State(0xdeadbf0d, 0xdeadbf0d, 0xdeadbf0d)
  {
    hide Low32;
    Lengths();
  }

  /** Two blocks are mixed, the last one is finalised. */
  lemma SpeechAnswer()
    ensures HashLittle2(Speech(), 0, 0) == (0x17770551, 0xce7226e6)
  {
    hide Hash, Init, Absorb, Mix, Final, Speech;
    SpeechInit();
    FirstMix();
    SecondMix();
    LastFinal();
    SpeechBlocks();
    HashMixes(Speech(), State(0xdeadbf0d, 0xdeadbf0d, 0xdeadbf0d));
    HashMixes(Speech()[12..], State(0xf859ad7a, 0x04bc57ae, 0x40dddd7e));
    HashEnds(Speech()[12..][12..], State(0x336aded2, 0x059f2642, 0xbd02ebd5));
  }

  // ---------- one letter, and nothing ----------

  lemma LetterFinal()
    ensures Final(State(0xdeadbf51, 0xdeadbef0, 0xdeadbef0)) == State(0x9d14722c, 0x582647ac, 0x58d68708)
  {
    assert FinalLine(0xdeadbef0, 0xdeadbef0, 14) == 0x9043c855;
    assert FinalLine(0xdeadbf51, 0x9043c855, 11) == 0x30abca82;
    assert FinalLine(0xdeadbef0, 0x30abca82, 25) == 0xe9a51cdd;
    assert FinalLine(0x9043c855, 0xe9a51cdd, 16) == 0x5d08eae3;
    assert FinalLine(0x30abca82, 0x5d08eae3, 4) == 0x9d14722c;
    assert FinalLine(0xe9a51cdd, 0x9d14722c, 14) == 0x582647ac;
    assert FinalLine(0x5d08eae3, 0x582647ac, 24) == 0x58d68708;
  }

  lemma LetterWords()
    ensures Add(0xdeadbef0, Word(0x61, 0x00, 0x00, 0x00)) == 0xdeadbf51
    ensures Add(0xdeadbef0, Word(0x00, 0x00, 0x00, 0x00)) == 0xdeadbef0
    ensures Add(0xdeadbef0, Word(0x00, 0x00, 0x00, 0x00)) == 0xdeadbef0
  {
  }

  lemma LetterBlock()
    ensures Absorb([0x61], State(0xdeadbef0, 0xdeadbef0, 0xdeadbef0)) ==
            State(0xdeadbf51, 0xdeadbef0, 0xdeadbef0)
  {
    hide Word, Add;
    LetterWords();
  }

  lemma LetterInit()
    ensures Init(1, 0, 0) == State(0xdeadbef0, 0xdeadbef0, 0xdeadbef0)
  {
    hide Low32;
    Lengths();
  }

  /** The key "a". */
  lemma LetterAnswer()
    ensures HashLittle2([0x61], 0, 0) == (0x58d68708, 0x582647ac)
  {
    hide Hash, Init, Absorb, Mix, Final;
    LetterInit();
    LetterFinal();
    LetterBlock();
    HashEnds([0x61], State(0xdeadbef0, 0xdeadbef0, 0xdeadbef0));
  }

  /** Nothing to hash: the seeds are all there is. */
  lemma EmptyAnswers()
    ensures HashLittle2([], 0, 0) == (0xdeadbeef, 0xdeadbeef)
    ensures HashLittle2([], 0, 0xdeadbeef) == (0xbd5b7dde, 0xdeadbeef)
    ensures HashLittle2([], 0xdeadbeef, 0xdeadbeef) == (0x9c093ccd, 0xbd5b7dde)
  {
    hide Low32;
    Lengths();
  }
}
