/**
  Changed code, whatever the change: a block entered after the fence is brought up to date before it is used.
 */
module DbbChanged {
  import opened DbbSpec
  import opened DbbBlock
  import opened DbbGraph
  import opened DbbCache
  import opened DbbRun

  /** What the ISS dispatches on. */
  datatype Dispatch = Dispatch(opLabel: Label, instr: Word)

  function DispatchOf(isa: Isa, w: Word): Dispatch { Dispatch(Op(isa.Decode(w).op), isa.Decode(w).instr) }

  /** The current block, entered as `b`, is about to deliver entry k: it was brought up to date, or will be. */
  ghost predicate Following(c: DBBCache, b: Block, k: nat)
    reads c
    requires 0 <= b.len < |b.entries|
  {
    && c.Valid() && !c.stage.FetchFailed? && c.at.block != 0 && c.at.Pos() == k - 1
    && var r := c.g.blocks[c.at.block];
       && r.start == b.start && r.len == b.len < |r.entries| && LinksDropped(b, r)
       && if c.at.fast.At? then OnPath(c.isa, c.code, r) else r.coherence != c.g.coherence
  }

  /** What entry k has to deliver. */
  ghost predicate Delivers(c: DBBCache, b: Block, k: nat, d: Dispatch)
    reads c
  {
    var a := PathAt(c.isa, c.code, b.start, k);
    a in c.code && d == DispatchOf(c.isa, c.code[a])
  }

  method FetchFast(c: DBBCache, ghost b: Block, ghost k: nat) returns (ok: bool, d: Dispatch)
    requires k < b.len < |b.entries| && Following(c, b, k) && Reaches(c.isa, c.code, b.start, k + 1)
    modifies c
    ensures c.code == old(c.code) && c.at.block == old(c.at.block)
    ensures if ok then Following(c, b, k + 1) && Delivers(c, b, k, d) else Following(c, b, k)
  {
    assert PathAt(c.isa, c.code, b.start, k) in c.code;
    var opLabel, instr := c.FetchDecodeFast();
    ok, d := opLabel != Abort, Dispatch(opLabel, instr);
    if !ok {
      c.AbortFetchDecodeFast();
    }
  }

  method FetchMedium(c: DBBCache, ghost b: Block, ghost k: nat) returns (d: Dispatch)
    requires k < b.len < |b.entries| && Following(c, b, k) && Reaches(c.isa, c.code, b.start, k + 1)
    modifies c
    ensures c.code == old(c.code) && c.at.block == old(c.at.block) && Following(c, b, k + 1) && Delivers(c, b, k, d)
  {
    assert PathAt(c.isa, c.code, b.start, k) in c.code;
    var pc := c.GetPcMaybeAfterCallback();
    var r := c.FetchDecode(pc);
    d := Dispatch(r.opLabel, r.instr);
  }

  /** One fetch, on the fast path if that is tried and possible. */
  method FetchFollowing(c: DBBCache, ghost b: Block, ghost k: nat, tryFast: bool) returns (d: Dispatch)
    requires k < b.len < |b.entries| && Following(c, b, k) && Reaches(c.isa, c.code, b.start, k + 1)
    modifies c
    ensures c.code == old(c.code) && c.at.block == old(c.at.block) && Following(c, b, k + 1) && Delivers(c, b, k, d)
  {
    if tryFast {
      var ok;
      ok, d := FetchFast(c, b, k);
      if ok {
        return;
      }
    }
    d := FetchMedium(c, b, k);
  }

  /** A sequence of fetches. */
  method FetchAll(c: DBBCache, ghost b: Block, tryFast: seq<bool>) returns (out: seq<Dispatch>)
    requires |tryFast| <= b.len < |b.entries| && Following(c, b, 0) && Reaches(c.isa, c.code, b.start, |tryFast|)
    modifies c
    ensures c.code == old(c.code) && c.at.block == old(c.at.block) && Following(c, b, |tryFast|)
    ensures |out| == |tryFast|
    ensures forall k: nat | k < |out| :: out[k] == DispatchOf(c.isa, c.code[PathAt(c.isa, c.code, b.start, k)])
  {
    out := [];
    for k := 0 to |tryFast|
      invariant c.code == old(c.code) && c.at.block == old(c.at.block) && Following(c, b, k)
      invariant |out| == k
      invariant forall i: nat | i < k :: out[i] == DispatchOf(c.isa, c.code[PathAt(c.isa, c.code, b.start, i)])
    {
      var d := FetchFollowing(c, b, k, tryFast[k]);
      out := out + [d];
    }
  }

  /** The operation leads to another block that has been recorded before. */
  ghost predicate Returns(c: DBBCache, op: Op, id: BlockId)
    reads c
  {
    && c.Valid() && c.stage.Executing? && Leaves(op) && ((op.Dyn? || op.Trapped?) ==> op.pc != INVALID_PC)
    && EntersBlock(c, op)
    && 0 < id < |c.g.blocks| && id != c.at.block && c.g.blocks[id].start == TargetOf(c.isa, c.Abs(), op)
  }

  /** After a fence any other block is entered unchecked. */
  method EnterStale(c: DBBCache, op: Op, ghost id: BlockId)
    requires Returns(c, op, id) && c.at.fast.Disabled? && c.g.blocks[id].coherence != c.g.coherence
    modifies c
    ensures c.Valid() && c.code == old(c.code) && c.at.block == id && c.at.fast.Disabled?
    ensures SameButLinks(old(c.g.blocks)[id], c.g.blocks[id])
    ensures Following(c, c.g.blocks[id], 0)
  {
    ghost var g, starts := c.g, c.starts;
    Move(c, op);
    assert BlockIn(c.isa, c.starts, c.g.blocks, c.g.coherence, c.at.block);
    Revisits(c.isa, starts, g, c.starts, c.g, c.at.block, c.Abs().pc);
    assert SameButLinks(g.blocks[id], c.g.blocks[id]);
  }

  /**
    Any code is replaced by any other, instruction lengths included, a fence follows, and a branch, jump or trap leads
    to another block recorded before.  As long as instructions can be fetched from there on, each fetch delivers what
    memory now holds along the path of execution, on the fast path or not.  If any word of the block changed, none of
    its links is left.
   */
  method ChangedCodeIsFetched(c: DBBCache, newCode: Code, op: Op, ghost id: BlockId, tryFast: seq<bool>)
    returns (out: seq<Dispatch>)
    requires Returns(c, op, id) && |tryFast| <= c.g.blocks[id].len
    requires Reaches(c.isa, newCode, c.g.blocks[id].start, |tryFast|)
    modifies c
    ensures c.Valid() && c.code == newCode && c.at.block == id && |out| == |tryFast|
    ensures forall k: nat | k < |out| :: out[k] == DispatchOf(c.isa, newCode[PathAt(c.isa, newCode, old(c.g.blocks)[id].start, k)])
    ensures c.g.blocks[id].len == old(c.g.blocks)[id].len < |c.g.blocks[id].entries|
    ensures old(c.g.blocks)[id].len <= |old(c.g.blocks)[id].entries|
    ensures Changed(old(c.g.blocks)[id], c.g.blocks[id]) ==> NoLinks(c.g.blocks[id])
  {
    c.ChangeCode(newCode);
    assert BlockIn(c.isa, c.starts, c.g.blocks, c.g.coherence, id);
    c.Fence();
    EnterStale(c, op, id);
    out := FetchAll(c, c.g.blocks[id], tryFast);
  }
}
