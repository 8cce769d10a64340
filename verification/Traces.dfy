/** The uses of the compression function. The functions of the specification are ghost, and so is the
    compression function wherever a mode or a job carries it: code that runs has it only through a
    trace, which records each time which bytes of the message the compressed node covers. */
module Traces {
  import opened Spec

  /** Bytes lo..hi of the whole message. */
  datatype Span = Span(lo: nat, hi: nat)

  /** A node of the tree: the bytes it covers, from the beginning of a chunk on. */
  datatype Node = Node(data: seq<Byte>, counter: nat) {
    function Range(): Span {
      Span(1024 * counter, 1024 * counter + |data|)
    }
  }

  /** Inside lo..hi, and all of it only if that is allowed. */
  predicate In(s: Span, lo: nat, hi: nat, whole: bool) {
    lo <= s.lo && s.hi <= hi && (whole || lo < s.lo || s.hi < hi)
  }

  /** What was recorded in between lies inside lo..hi. */
  ghost predicate Added(before: set<Span>, after: set<Span>, lo: nat, hi: nat, whole: bool) {
    before <= after && forall s <- after :: s in before || In(s, lo, hi, whole)
  }

  /** Part of a range is inside the whole of it, and is not all of it. */
  lemma AddedInside(before: set<Span>, after: set<Span>, lo: nat, hi: nat, whole: bool, from: nat, to: nat)
    requires Added(before, after, lo, hi, whole) && from <= lo && hi <= to
    requires !whole || from < lo || hi < to
    ensures Added(before, after, from, to, false)
  {}

  /** What lies inside a node lies where the node lies. */
  lemma AddedWithin(before: set<Span>, after: set<Span>, node: Span, lo: nat, hi: nat, whole: bool)
    requires Added(before, after, node.lo, node.hi, true) && In(node, lo, hi, whole)
    ensures Added(before, after, lo, hi, whole)
  {}

  class Trace {
    /** The compression function, applied in this class only. */
    const run: Compressor
    ghost var spans: set<Span>
    ghost var rootBlocks: nat

    constructor (run: Compressor)
      ensures this.run == run && spans == {} && rootBlocks == 0
    {
      this.run, spans, rootBlocks := run, {}, 0;
    }

    /** One more block of a chunk that goes on after it. */
    method Chain(cv: Words8, block: Block, counter: nat, flags: bv8,
                 ghost m: Mode, ghost blocks: nat, ghost data: seq<Byte>)
      returns (next: Words8)
      requires run == m.compress && flags == With(m.flags, StartFlag(blocks))
      requires 64 * (blocks + 1) <= |data| && block == data[64 * blocks..64 * (blocks + 1)]
      requires cv == ChainBlocks(m, blocks, data, counter)
      modifies this`spans
      ensures next == ChainBlocks(m, blocks + 1, data, counter)
      ensures spans == old(spans) + {Span(1024 * counter, 1024 * counter + 64 * (blocks + 1))}
    {
      next := run(cv, LoadWords(block), counter, 64, flags)[..8];
      spans := spans + {Span(1024 * counter, 1024 * counter + 64 * (blocks + 1))};
    }

    /** The chaining value of a node, which is then not the root. */
    method Finish(o: Output, ghost m: Mode, ghost node: Node) returns (cv: Cv)
      requires run == m.compress && o == SubtreeOutput(m, node.data, node.counter)
      modifies this`spans
      ensures cv == ChainingValue(run, o) == SubtreeCv(m, node.data, node.counter)
      ensures spans == old(spans) + {node.Range()}
    {
      cv := StoreWords(run(o.inputCv, LoadWords(o.block), o.counter, o.blockLen, o.flags)[..8]);
      spans := spans + {node.Range()};
    }

    /** One block of the root's output. */
    method Root(o: Output, index: nat) returns (block: Block)
      modifies this`rootBlocks
      ensures block == RootBlock(run, o, index)
      ensures rootBlocks == old(rootBlocks) + 1
    {
      block := StoreWords(run(o.inputCv, LoadWords(o.block), index, o.blockLen, With(o.flags, ROOT)));
      rootBlocks := rootBlocks + 1;
    }
  }
}
