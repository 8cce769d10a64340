/** Why two messages do not have the same hash unless the compression function has a collision. The flags keep the
    uses of the compression function apart: a chunk's first and last blocks, parents and the root. */
module Separation {
  import opened Pieces
  import opened Spec
  import opened Xof

  // ---- Flags ----

  const KIND: bv8 := 15

  /** The flags say exactly which of the four kinds a compression is of; the other bits are the mode's. */
  predicate Says(flags: bv8, mode: bv8, first: bool, last: bool, parent: bool, root: bool) {
    && (flags & 1 != 0 <==> first) && (flags & 2 != 0 <==> last)
    && (flags & 4 != 0 <==> parent) && (flags & 8 != 0 <==> root)
    && flags & 0xf0 == mode
  }

  lemma BlockSays(mode: bv8, before: nat)
    requires mode & KIND == 0
    ensures Says(With(mode, StartFlag(before)), mode, before == 0, false, false, false)
    ensures Says(With(With(mode, StartFlag(before)), CHUNK_END), mode, before == 0, true, false, false)
  {}

  lemma ParentSays(mode: bv8)
    requires mode & KIND == 0
    ensures Says(With(mode, PARENT), mode, false, false, true, false)
  {}

  lemma RootSays(flags: bv8, mode: bv8, first: bool, last: bool, parent: bool)
    requires Says(flags, mode, first, last, parent, false)
    ensures Says(With(flags, ROOT), mode, first, last, parent, true)
  {}

  // ---- The compressions that a message asks for ----

  /** What one compression is applied to. */
  datatype Input = Input(cv: Words8, words: Words16, counter: nat, blockLen: nat, flags: bv8)

  ghost function Value(c: Compressor, x: Input): Words8 {
    c(x.cv, x.words, x.counter, x.blockLen, x.flags)[..8]
  }

  /** A compression, and what it is for. A block of a chunk is `len` bytes of the message from `at` on. */
  datatype Use = Use(input: Input, at: nat, len: nat, first: bool, last: bool, parent: bool, root: bool)

  ghost function InputOf(o: Output): Input {
    Input(o.inputCv, LoadWords(o.block), o.counter, o.blockLen, o.flags)
  }

  ghost function BlockInput(m: Mode, data: seq<Byte>, counter: nat, index: nat): Input
    requires 64 * (index + 1) <= |data|
  {
    Input(ChainBlocks(m, index, data, counter), LoadWords(data[64 * index..64 * (index + 1)]), counter, 64,
          With(m.flags, StartFlag(index)))
  }

  ghost function BlockUse(m: Mode, data: seq<Byte>, counter: nat, index: nat): Use
    requires 64 * (index + 1) <= |data|
  {
    Use(BlockInput(m, data, counter, index), 1024 * counter + 64 * index, 64, index == 0, false, false, false)
  }

  /** The first `blocks` blocks of a chunk. */
  ghost function BlockUses(m: Mode, data: seq<Byte>, counter: nat, blocks: nat): set<Use>
    requires 64 * blocks <= |data|
    decreases blocks
  {
    if blocks == 0 then {}
    else
      BlockUses(m, data, counter, blocks - 1)
      + {BlockUse(m, data, counter, blocks - 1)}
  }

  /** All compressions below the top node of a subtree. */
  ghost function UsesBelow(m: Mode, data: seq<Byte>, counter: nat): set<Use>
    decreases |data|, 0
  {
    if |data| <= 1024 then BlockUses(m, data, counter, FullBlocks(|data|))
    else
      var l := LeftLen(|data|);
      SubtreeUses(m, data[..l], counter) + SubtreeUses(m, data[l..], counter + l / 1024)
  }

  ghost function TopUse(m: Mode, data: seq<Byte>, counter: nat): Use {
    var before := 64 * FullBlocks(|data|);
    Use(InputOf(SubtreeOutput(m, data, counter)), 1024 * counter + before, |data| - before,
        |data| <= 64, |data| <= 1024, |data| > 1024, false)
  }

  /** All compressions that the chaining value of a subtree takes. */
  ghost function SubtreeUses(m: Mode, data: seq<Byte>, counter: nat): set<Use>
    decreases |data|, 1
  {
    UsesBelow(m, data, counter) + {TopUse(m, data, counter)}
  }

  ghost function RootUse(m: Mode, message: seq<Byte>, index: nat): Use {
    var o, top := SubtreeOutput(m, message, 0), TopUse(m, message, 0);
    top.(input := Input(o.inputCv, LoadWords(o.block), index, o.blockLen, With(o.flags, ROOT)), root := true)
  }

  /** All compressions that the first 64 bytes of a message's hash take. */
  ghost function HashUses(m: Mode, message: seq<Byte>): set<Use> {
    UsesBelow(m, message, 0) + {RootUse(m, message, 0)}
  }

  // ---- Domain separation ----

  ghost predicate Marked(m: Mode, u: Use) {
    Says(u.input.flags, m.flags, u.first, u.last, u.parent, u.root)
  }

  /** What is compressed, for an input that starts at chunk number `counter`. A parent starts from the key, with
      the counter 0 and a full block. A block of a chunk is the bytes at its place, padded with zeros, with their
      number and the number of the chunk; only the first starts from the key, only the last may be short. */
  ghost predicate Placed(m: Mode, data: seq<Byte>, counter: nat, u: Use) {
    && (u.parent ==> u.input.cv == m.key && u.input.blockLen == 64 && (!u.root ==> u.input.counter == 0))
    && (!u.parent ==>
      && 1024 * counter <= u.at && u.at + u.len <= 1024 * counter + |data| && u.len <= 64
      && u.input.words == LoadWords(Pad(data[u.at - 1024 * counter..u.at - 1024 * counter + u.len]))
      && u.input.blockLen == u.len && (!u.root ==> u.input.counter == u.at / 1024)
      && (u.first <==> u.at % 1024 == 0) && (u.first ==> u.input.cv == m.key)
      && (!u.last ==> u.len == 64))
  }

  lemma {:induction false} BlocksMarked(m: Mode, data: seq<Byte>, counter: nat, blocks: nat)
    requires m.flags & KIND == 0 && 64 * blocks <= |data|
    ensures forall u <- BlockUses(m, data, counter, blocks) :: Marked(m, u)
    decreases blocks
  {
    hide Says, ChainBlocks, LoadWords, With;
    if blocks > 0 {
      BlocksMarked(m, data, counter, blocks - 1);
      BlockSays(m.flags, blocks - 1);
    }
  }

  lemma TopMarked(m: Mode, data: seq<Byte>, counter: nat)
    requires m.flags & KIND == 0
    ensures Marked(m, TopUse(m, data, counter))
  {
    hide Says, ChainBlocks, LoadWords, With, ChainingValue;
    BlockSays(m.flags, FullBlocks(|data|));
    ParentSays(m.flags);
  }

  lemma {:induction false} UsesMarked(m: Mode, data: seq<Byte>, counter: nat)
    requires m.flags & KIND == 0
    ensures forall u <- UsesBelow(m, data, counter) :: Marked(m, u)
    decreases |data|
  {
    hide Marked, TopUse;
    if |data| <= 1024 {
      BlocksMarked(m, data, counter, FullBlocks(|data|));
    } else {
      var l := LeftLen(|data|);
      UsesMarked(m, data[..l], counter);
      UsesMarked(m, data[l..], counter + l / 1024);
      TopMarked(m, data[..l], counter);
      TopMarked(m, data[l..], counter + l / 1024);
    }
  }

  lemma {:induction false} BlocksPlaced(m: Mode, data: seq<Byte>, counter: nat, blocks: nat)
    requires 64 * blocks <= |data| <= 1024 && (|data| > 0 ==> 64 * blocks < |data|)
    ensures forall u <- BlockUses(m, data, counter, blocks) :: Placed(m, data, counter, u)
    decreases blocks
  {
    hide With, LoadWords, Placed;
    if blocks > 0 {
      BlocksPlaced(m, data, counter, blocks - 1);
      BlockPlaced(m, data, counter, blocks - 1);
    }
  }

  lemma BlockPlaced(m: Mode, data: seq<Byte>, counter: nat, index: nat)
    requires 64 * (index + 1) < |data| <= 1024
    ensures Placed(m, data, counter, BlockUse(m, data, counter, index))
  {
    hide With, LoadWords, CompressInPlace;
    assert (1024 * counter + 64 * index) / 1024 == counter;
    assert Pad(data[64 * index..64 * index + 64]) == data[64 * index..64 * (index + 1)];
  }

  lemma TopPlaced(m: Mode, data: seq<Byte>, counter: nat)
    ensures Placed(m, data, counter, TopUse(m, data, counter))
  {
    hide With, LoadWords, CompressInPlace, ChainingValue, Pad;
    if |data| <= 1024 {
      var before := 64 * FullBlocks(|data|);
      assert data[before..before + (|data| - before)] == data[before..];
      assert (1024 * counter + before) / 1024 == counter;
    }
  }

  /** What is placed in a part is placed in the whole. */
  lemma PlacedInWhole(m: Mode, data: seq<Byte>, counter: nat, from: nat, to: nat, u: Use)
    requires from <= to <= |data| && from % 1024 == 0 && Placed(m, data[from..to], counter + from / 1024, u)
    ensures Placed(m, data, counter, u)
  {
    hide LoadWords, Pad;
    if !u.parent {
      var at := u.at - 1024 * counter;
      SliceOfSlice(data, from, to, at - from, at - from + u.len);
    }
  }

  lemma AllPlaced(m: Mode, data: seq<Byte>, counter: nat, from: nat, to: nat, uses: set<Use>)
    requires from <= to <= |data| && from % 1024 == 0
    requires forall u <- uses :: Placed(m, data[from..to], counter + from / 1024, u)
    ensures forall u <- uses :: Placed(m, data, counter, u)
  {
    forall u <- uses ensures Placed(m, data, counter, u) {
      PlacedInWhole(m, data, counter, from, to, u);
    }
  }

  lemma {:induction false} UsesPlaced(m: Mode, data: seq<Byte>, counter: nat)
    ensures forall u <- UsesBelow(m, data, counter) :: Placed(m, data, counter, u)
    decreases |data|
  {
    hide Placed, TopUse;
    if |data| <= 1024 {
      BlocksPlaced(m, data, counter, FullBlocks(|data|));
    } else {
      var l := LeftLen(|data|);
      UsesPlaced(m, data[..l], counter);
      UsesPlaced(m, data[l..], counter + l / 1024);
      TopPlaced(m, data[..l], counter);
      TopPlaced(m, data[l..], counter + l / 1024);
      assert data[..l] == data[0..l];
      ToEnd(data, l);
      AllPlaced(m, data, counter, 0, l, SubtreeUses(m, data[..l], counter));
      AllPlaced(m, data, counter, l, |data|, SubtreeUses(m, data[l..], counter + l / 1024));
    }
  }

  lemma RootPlaced(m: Mode, message: seq<Byte>, index: nat)
    ensures Placed(m, message, 0, RootUse(m, message, index))
  {
    hide SubtreeOutput, LoadWords, Pad, With;
    TopPlaced(m, message, 0);
  }

  /** Domain separation: in every compression that a hash takes, the bit 1 is set exactly for the first block of a
      chunk, 2 exactly for the last, 4 exactly for a parent and 8 exactly for the root. The other bits are the
      mode's, and what is compressed is the block at its place. */
  lemma DomainsApart(m: Mode, message: seq<Byte>, index: nat)
    requires m.flags & KIND == 0
    ensures forall u <- UsesBelow(m, message, 0) + {RootUse(m, message, index)} ::
      Marked(m, u) && Placed(m, message, 0, u)
  {
    hide UsesBelow, Says, SubtreeOutput, With, LoadWords;
    UsesMarked(m, message, 0);
    TopMarked(m, message, 0);
    UsesPlaced(m, message, 0);
    RootPlaced(m, message, index);
    hide Placed;
    var top := TopUse(m, message, 0);
    RootSays(top.input.flags, m.flags, top.first, top.last, top.parent);
  }

  ghost predicate Takes(uses: set<Use>, i: nat) {
    exists u :: u in uses && !u.parent && u.at <= i < u.at + u.len
  }

  lemma {:induction false} BlocksTake(m: Mode, data: seq<Byte>, counter: nat, blocks: nat, i: nat)
    requires i < 64 * blocks <= |data|
    ensures Takes(BlockUses(m, data, counter, blocks), 1024 * counter + i)
    decreases blocks
  {
    hide BlockInput;
    if i < 64 * (blocks - 1) {
      BlocksTake(m, data, counter, blocks - 1, i);
    } else {
      assert BlockUse(m, data, counter, blocks - 1) in BlockUses(m, data, counter, blocks);
    }
  }

  lemma ChunkTakes(m: Mode, data: seq<Byte>, counter: nat, i: nat)
    requires i < |data| <= 1024
    ensures Takes(UsesBelow(m, data, counter), 1024 * counter + i)
      || (var top := TopUse(m, data, counter); top.at <= 1024 * counter + i < top.at + top.len)
  {
    hide SubtreeOutput, BlockUses, LoadWords;
    if i < 64 * FullBlocks(|data|) { BlocksTake(m, data, counter, FullBlocks(|data|), i); }
  }

  /** Every byte goes into a compression. */
  lemma {:induction false} SubtreeTakes(m: Mode, data: seq<Byte>, counter: nat, i: nat)
    requires i < |data|
    ensures |data| <= 1024 ==> Takes(SubtreeUses(m, data, counter), 1024 * counter + i)
    ensures |data| > 1024 ==> Takes(UsesBelow(m, data, counter), 1024 * counter + i)
    decreases |data|
  {
    hide SubtreeOutput, BlockUses, LoadWords;
    if |data| <= 1024 {
      ChunkTakes(m, data, counter, i);
      assert TopUse(m, data, counter) in SubtreeUses(m, data, counter);
    } else {
      var l := LeftLen(|data|);
      if i < l {
        SubtreeTakes(m, data[..l], counter, i);
      } else {
        SubtreeTakes(m, data[l..], counter + l / 1024, i - l);
      }
    }
  }

  /** Every byte of a message goes into one of the compressions of its hash. */
  lemma HashTakes(m: Mode, message: seq<Byte>, i: nat)
    requires i < |message|
    ensures Takes(HashUses(m, message), i)
  {
    hide UsesBelow, SubtreeOutput, LoadWords, With;
    SubtreeTakes(m, message, 0, i);
    if |message| <= 1024 { ChunkTakes(m, message, 0, i); }
    assert RootUse(m, message, 0) in HashUses(m, message);
  }

  // ---- Collisions ----

  /** One of the compressions in a and one in b are different and have the same value. */
  ghost predicate Collide(c: Compressor, a: set<Use>, b: set<Use>) {
    exists x, y :: x in a && y in b && x.input != y.input && Value(c, x.input) == Value(c, y.input)
  }

  lemma CollideMore(c: Compressor, a: set<Use>, b: set<Use>, a': set<Use>, b': set<Use>)
    requires Collide(c, a, b) && a <= a' && b <= b'
    ensures Collide(c, a', b')
  {
    hide Value;
    var x, y :| x in a && y in b && x.input != y.input && Value(c, x.input) == Value(c, y.input);
    assert x in a' && y in b';
  }

  lemma WordBack(b0: Byte, b1: Byte, b2: Byte, b3: Byte)
    ensures StoreWord(WordOf(b0, b1, b2, b3)) == [b0, b1, b2, b3]
  {}

  lemma {:induction false} StoreLoad(bytes: seq<Byte>)
    requires |bytes| % 4 == 0
    ensures StoreWords(LoadWords(bytes)) == bytes
  {
    hide StoreWord, WordOf;
    if |bytes| > 0 {
      StoreLoad(bytes[4..]);
      WordBack(bytes[0], bytes[1], bytes[2], bytes[3]);
      var ws := LoadWords(bytes);
      assert ws[0] == LoadWord(bytes, 0) && ws[1..] == LoadWords(bytes[4..]);
      assert bytes == [bytes[0], bytes[1], bytes[2], bytes[3]] + bytes[4..];
    }
  }

  lemma LoadInjective(a: seq<Byte>, b: seq<Byte>)
    requires |a| % 4 == 0 && |b| % 4 == 0 && LoadWords(a) == LoadWords(b)
    ensures a == b
  {
    hide LoadWords, StoreWords;
    StoreLoad(a);
    StoreLoad(b);
  }

  lemma StoreInjective(a: seq<Word>, b: seq<Word>)
    requires StoreWords(a) == StoreWords(b)
    ensures a == b
  {
    hide LoadWords, StoreWords;
    LoadStore(a);
    LoadStore(b);
  }

  /** Two modes that differ in the key at most, with flags that leave the four kinds free. */
  ghost predicate Alike(m: Mode, n: Mode) {
    m.compress == n.compress && m.flags == n.flags && m.flags & KIND == 0
  }

  /** Equal chains come from equal blocks, or a compression of the one collides with one of the other. */
  lemma {:induction false} ChainsSame(m: Mode, a: seq<Byte>, ca: nat, na: nat,
                                      n: Mode, b: seq<Byte>, cb: nat, nb: nat)
    requires Alike(m, n) && 64 * na <= |a| && 64 * nb <= |b| && (na == 0 <==> nb == 0)
    requires ChainBlocks(m, na, a, ca) == ChainBlocks(n, nb, b, cb)
    ensures (m.key == n.key && na == nb && a[..64 * na] == b[..64 * nb])
      || Collide(m.compress, BlockUses(m, a, ca, na), BlockUses(n, b, cb, nb))
    decreases na
  {
    hide With, LoadWords, Says, Collide;
    if na > 0 {
      var x, y := BlockInput(m, a, ca, na - 1), BlockInput(n, b, cb, nb - 1);
      ChainValue(m, a, ca, na);
      ChainValue(n, b, cb, nb);
      if x != y {
        OneCollision(m.compress, BlockUses(m, a, ca, na), BlockUses(n, b, cb, nb),
          BlockUse(m, a, ca, na - 1), BlockUse(n, b, cb, nb - 1));
      } else {
        LoadInjective(a[64 * (na - 1)..64 * na], b[64 * (nb - 1)..64 * nb]);
        BlockSays(m.flags, na - 1);
        BlockSays(m.flags, nb - 1);
        OnlyOneSays(x.flags, m.flags, na == 1, false, false, nb == 1, false, false);
        ChainsSame(m, a, ca, na - 1, n, b, cb, nb - 1);
        if Collide(m.compress, BlockUses(m, a, ca, na - 1), BlockUses(n, b, cb, nb - 1)) {
          CollideMore(m.compress, BlockUses(m, a, ca, na - 1), BlockUses(n, b, cb, nb - 1),
            BlockUses(m, a, ca, na), BlockUses(n, b, cb, nb));
        } else {
          assert a[..64 * na] == a[..64 * (na - 1)] + a[64 * (na - 1)..64 * na];
          assert b[..64 * nb] == b[..64 * (nb - 1)] + b[64 * (nb - 1)..64 * nb];
        }
      }
    }
  }

  lemma OneCollision(c: Compressor, a: set<Use>, b: set<Use>, x: Use, y: Use)
    requires x in a && y in b && x.input != y.input && Value(c, x.input) == Value(c, y.input)
    ensures Collide(c, a, b)
  {
    hide Value;
  }

  lemma ChainValue(m: Mode, data: seq<Byte>, counter: nat, blocks: nat)
    requires blocks > 0 && 64 * blocks <= |data|
    ensures ChainBlocks(m, blocks, data, counter) == Value(m.compress, BlockInput(m, data, counter, blocks - 1))
  {
    hide With, LoadWords;
  }

  /** Flags tell one story only. */
  lemma OnlyOneSays(flags: bv8, mode: bv8, first: bool, last: bool, parent: bool,
                    first': bool, last': bool, parent': bool)
    requires Says(flags, mode, first, last, parent, false) && Says(flags, mode, first', last', parent', false)
    ensures first == first' && last == last' && parent == parent'
  {}

  lemma PadInjective(x: seq<Byte>, y: seq<Byte>)
    requires |x| == |y| <= 64 && Pad(x) == Pad(y)
    ensures x == y
  {
    assert Pad(x)[..|x|] == x && Pad(y)[..|y|] == y;
  }

  lemma ChunksSame(m: Mode, a: seq<Byte>, ca: nat, n: Mode, b: seq<Byte>, cb: nat)
    requires Alike(m, n) && |a| <= 1024 && |b| <= 1024
    requires ChunkOutput(m, a, ca) == ChunkOutput(n, b, cb)
    ensures (m.key == n.key && a == b)
      || Collide(m.compress, BlockUses(m, a, ca, FullBlocks(|a|)), BlockUses(n, b, cb, FullBlocks(|b|)))
  {
    hide With, Says, Collide, ChainBlocks, BlockUses, Pad;
    var na, nb := FullBlocks(|a|), FullBlocks(|b|);
    BlockSays(m.flags, na);
    BlockSays(m.flags, nb);
    OnlyOneSays(ChunkOutput(m, a, ca).flags, m.flags, na == 0, true, false, nb == 0, true, false);
    ChainsSame(m, a, ca, na, n, b, cb, nb);
    PadInjective(a[64 * na..], b[64 * nb..]);
    assert a == a[..64 * na] + a[64 * na..] && b == b[..64 * nb] + b[64 * nb..];
  }

  lemma InputInjective(o: Output, p: Output)
    requires InputOf(o) == InputOf(p)
    ensures o == p
  {
    hide LoadWords;
    LoadInjective(o.block, p.block);
  }

  /** Equal nodes cover equal bytes, or a compression below the one collides with one below the other. */
  lemma {:induction false} NodesSame(m: Mode, a: seq<Byte>, ca: nat, n: Mode, b: seq<Byte>, cb: nat)
    requires Alike(m, n) && SubtreeOutput(m, a, ca) == SubtreeOutput(n, b, cb)
    ensures (m.key == n.key && a == b) || Collide(m.compress, UsesBelow(m, a, ca), UsesBelow(n, b, cb))
    decreases |a|, 0
  {
    hide Says, Collide, ChunkOutput, BlockUses, SubtreeUses, ChainingValue, With;
    TopMarked(m, a, ca);
    TopMarked(n, b, cb);
    OnlyOneSays(SubtreeOutput(m, a, ca).flags, m.flags, |a| <= 64, |a| <= 1024, |a| > 1024,
                |b| <= 64, |b| <= 1024, |b| > 1024);
    if |a| <= 1024 {
      ChunksSame(m, a, ca, n, b, cb);
    } else {
      var l, r := LeftLen(|a|), LeftLen(|b|);
      SubtreeJoin(m, a, ca);
      SubtreeJoin(n, b, cb);
      hide SubtreeOutput, SubtreeCv;
      ParentInjective(m, SubtreeCv(m, a[..l], ca), SubtreeCv(m, a[l..], ca + l / 1024),
                      n, SubtreeCv(n, b[..r], cb), SubtreeCv(n, b[r..], cb + r / 1024));
      CvsSame(m, a[..l], ca, n, b[..r], cb);
      CvsSame(m, a[l..], ca + l / 1024, n, b[r..], cb + r / 1024);
      if m.key == n.key && a[..l] == b[..r] && a[l..] == b[r..] {
        assert a == a[..l] + a[l..] && b == b[..r] + b[r..];
      } else if Collide(m.compress, SubtreeUses(m, a[..l], ca), SubtreeUses(n, b[..r], cb)) {
        CollideMore(m.compress, SubtreeUses(m, a[..l], ca), SubtreeUses(n, b[..r], cb),
          UsesBelow(m, a, ca), UsesBelow(n, b, cb));
      } else {
        CollideMore(m.compress, SubtreeUses(m, a[l..], ca + l / 1024), SubtreeUses(n, b[r..], cb + r / 1024),
          UsesBelow(m, a, ca), UsesBelow(n, b, cb));
      }
    }
  }

  lemma ParentInjective(m: Mode, left: Cv, right: Cv, n: Mode, left': Cv, right': Cv)
    requires ParentOutput(m, left, right) == ParentOutput(n, left', right')
    ensures left == left' && right == right'
  {
    var x, y := ParentBytes(left, right), ParentBytes(left', right');
    assert x[..32] == left && x[32..] == right && y[..32] == left' && y[32..] == right';
  }

  /** The same for chaining values. */
  lemma {:induction false} CvsSame(m: Mode, a: seq<Byte>, ca: nat, n: Mode, b: seq<Byte>, cb: nat)
    requires Alike(m, n) && SubtreeCv(m, a, ca) == SubtreeCv(n, b, cb)
    ensures (m.key == n.key && a == b) || Collide(m.compress, SubtreeUses(m, a, ca), SubtreeUses(n, b, cb))
    decreases |a|, 1
  {
    hide Says, Collide, UsesBelow, SubtreeOutput, StoreWords, LoadWords;
    var x, y := TopUse(m, a, ca), TopUse(n, b, cb);
    StoreInjective(Value(m.compress, x.input), Value(m.compress, y.input));
    hide Value;
    if x.input != y.input {
      OneCollision(m.compress, SubtreeUses(m, a, ca), SubtreeUses(n, b, cb), x, y);
    } else {
      InputInjective(SubtreeOutput(m, a, ca), SubtreeOutput(n, b, cb));
      NodesSame(m, a, ca, n, b, cb);
      if Collide(m.compress, UsesBelow(m, a, ca), UsesBelow(n, b, cb)) {
        CollideMore(m.compress, UsesBelow(m, a, ca), UsesBelow(n, b, cb),
          SubtreeUses(m, a, ca), SubtreeUses(n, b, cb));
      }
    }
  }

  // ---- Whole messages ----

  lemma {:induction false} StorePrefix(ws: seq<Word>, k: nat)
    requires k <= |ws|
    ensures StoreWords(ws)[..4 * k] == StoreWords(ws[..k])
    decreases k
  {
    hide StoreWord;
    if k > 0 {
      StorePrefix(ws[1..], k - 1);
      assert ws[..k][1..] == ws[1..][..k - 1];
    }
  }

  /** The first 32 bytes of a hash are the value of the root's compression. */
  lemma HashValue(m: Mode, message: seq<Byte>)
    ensures Hash(m, message, 0, 32) == StoreWords(Value(m.compress, RootUse(m, message, 0).input))
  {
    hide SubtreeOutput, LoadWords, With, StoreWords;
    var o := SubtreeOutput(m, message, 0);
    WindowOfBlock(m.compress, o, 0, 0, 32);
    var words := m.compress(o.inputCv, LoadWords(o.block), 0, o.blockLen, With(o.flags, ROOT));
    StorePrefix(words, 8);
    assert RootBlock(m.compress, o, 0)[0..32] == StoreWords(words)[..32];
  }

  lemma RootInjective(o: Output, p: Output, mode: bv8, first: bool, last: bool, parent: bool,
                      first': bool, last': bool, parent': bool)
    requires Says(o.flags, mode, first, last, parent, false) && Says(p.flags, mode, first', last', parent', false)
    requires With(o.flags, ROOT) == With(p.flags, ROOT)
    ensures o.flags == p.flags
  {}

  lemma RootCounter(m: Mode, message: seq<Byte>)
    ensures SubtreeOutput(m, message, 0).counter == 0
  {
    hide ChainBlocks, ChainingValue, With;
  }

  /** Two messages have the same hash only if they are the same message under the same key, or a compression
      that the one takes and a compression that the other takes are a collision. */
  lemma HashSame(m: Mode, a: seq<Byte>, n: Mode, b: seq<Byte>)
    requires Alike(m, n) && Hash(m, a, 0, 32) == Hash(n, b, 0, 32)
    ensures (m.key == n.key && a == b) || Collide(m.compress, HashUses(m, a), HashUses(n, b))
  {
    hide Says, Collide, UsesBelow, SubtreeOutput, StoreWords, LoadWords, Hash, With;
    var x, y := RootUse(m, a, 0), RootUse(n, b, 0);
    HashValue(m, a);
    HashValue(n, b);
    StoreInjective(Value(m.compress, x.input), Value(n.compress, y.input));
    hide Value;
    if x.input != y.input {
      OneCollision(m.compress, HashUses(m, a), HashUses(n, b), x, y);
    } else {
      var o, p := SubtreeOutput(m, a, 0), SubtreeOutput(n, b, 0);
      TopMarked(m, a, 0);
      TopMarked(n, b, 0);
      RootInjective(o, p, m.flags, |a| <= 64, |a| <= 1024, |a| > 1024, |b| <= 64, |b| <= 1024, |b| > 1024);
      RootCounter(m, a);
      RootCounter(n, b);
      LoadInjective(o.block, p.block);
      NodesSame(m, a, 0, n, b, 0);
      if Collide(m.compress, UsesBelow(m, a, 0), UsesBelow(n, b, 0)) {
        CollideMore(m.compress, UsesBelow(m, a, 0), UsesBelow(n, b, 0), HashUses(m, a), HashUses(n, b));
      }
    }
  }

  lemma ModesApart(flags: bv8, flags': bv8, mode: bv8, mode': bv8, first: bool, last: bool, parent: bool,
                   first': bool, last': bool, parent': bool)
    requires Says(flags, mode, first, last, parent, false) && Says(flags', mode', first', last', parent', false)
    requires mode != mode'
    ensures With(flags, ROOT) != With(flags', ROOT)
  {}

  /** Hashes in two different modes are the same only by a collision, whatever the keys and messages. */
  lemma ModesSame(m: Mode, a: seq<Byte>, n: Mode, b: seq<Byte>)
    requires m.compress == n.compress && m.flags & KIND == 0 && n.flags & KIND == 0 && m.flags != n.flags
    requires Hash(m, a, 0, 32) == Hash(n, b, 0, 32)
    ensures Collide(m.compress, HashUses(m, a), HashUses(n, b))
  {
    hide Says, Collide, UsesBelow, SubtreeOutput, StoreWords, LoadWords, Hash, With;
    var x, y := RootUse(m, a, 0), RootUse(n, b, 0);
    HashValue(m, a);
    HashValue(n, b);
    StoreInjective(Value(m.compress, x.input), Value(n.compress, y.input));
    TopMarked(m, a, 0);
    TopMarked(n, b, 0);
    ModesApart(SubtreeOutput(m, a, 0).flags, SubtreeOutput(n, b, 0).flags, m.flags, n.flags,
               |a| <= 64, |a| <= 1024, |a| > 1024, |b| <= 64, |b| <= 1024, |b| > 1024);
    hide Value;
    OneCollision(m.compress, HashUses(m, a), HashUses(n, b), x, y);
  }
}
