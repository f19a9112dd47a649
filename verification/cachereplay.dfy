/** Whole runs on the byte-level cache: what the flush callback has received at the end. */
module CacheReplay {
  import opened Bytes
  import opened Frames
  import opened CacheModel
  import opened CacheProofs
  import opened CacheLedger
  import opened Flushing
  import opened BufferCaching

  lemma {:induction false} PanicsForGood(codec: Codec, on: bool, cfg: Config, ops: seq<Op>, n: nat)
    requires cfg.Valid() && n <= |ops| && Run(codec, on, cfg, ops[..n]).None?
    ensures Run(codec, on, cfg, ops).None?
  {
    if n == |ops| {
      assert ops[..n] == ops;
    } else {
      var init := ops[..|ops| - 1];
      assert init[..n] == ops[..n];
      PanicsForGood(codec, on, cfg, init, n);
    }
  }

  lemma RunNext(codec: Codec, on: bool, cfg: Config, ops: seq<Op>, n: nat)
    requires cfg.Valid() && n < |ops| && Run(codec, on, cfg, ops[..n]).Some?
    ensures Run(codec, on, cfg, ops[..n + 1]) == Step(codec, on, cfg, Run(codec, on, cfg, ops[..n]).value, ops[n])
  {
    var more := ops[..n + 1];
    assert more[..|more| - 1] == ops[..n];
  }

  /** One call. */
  method Call(c: BufferCache, op: Op) returns (ok: bool)
    requires c.Valid() && Inv(c.cfg, c.View())
    modifies c, c.Repr
    ensures ok <==> Step(c.codec, c.compressionOn, c.cfg, old(c.View()), op).Some?
    ensures ok ==> c.Valid() && Inv(c.cfg, c.View())
    ensures ok ==> Step(c.codec, c.compressionOn, c.cfg, old(c.View()), op) == Some(c.View())
    ensures ok ==> fresh(c.Repr - old(c.Repr))
  {
    match op {
      case OpFlush =>
        c.Flush();
        ok := true;
      case OpPut(key, buf) =>
        PutKeepsInvariant(c.cfg, c.View(), key, c.codec.Stored(c.compressionOn, buf));
        ok := c.Put(key, buf);
    }
  }

  /** Any sequence of calls on a new cache does what the model says, panics included. */
  method Replay(cfg: Config, codec: Codec, on: bool, ops: seq<Op>) returns (c: BufferCache, ok: bool)
    requires cfg.Valid() && Representable(cfg) && codec.Inverse()
    ensures fresh(c) && c.cfg == cfg && c.codec == codec
    ensures ok <==> Run(codec, on, cfg, ops).Some?
    ensures ok ==> c.Valid() && Inv(cfg, c.View()) && Run(codec, on, cfg, ops) == Some(c.View())
    ensures ok ==> fresh(c.Repr)
  {
    c := new BufferCache(cfg, codec, on);
    ok := true;
    InitInvariant(cfg);
    for i := 0 to |ops|
      invariant c.Valid() && Inv(cfg, c.View())
      invariant Run(codec, on, cfg, ops[..i]) == Some(c.View())
      invariant ok && fresh(c.Repr)
    {
      RunNext(codec, on, cfg, ops, i);
      ok := Call(c, ops[i]);
      if !ok {
        PanicsForGood(codec, on, cfg, ops, i + 1);
        return;
      }
    }
    assert ops[..|ops|] == ops;
  }

  /**
   * After any calls that did not panic and a final Flush, the callback has received every buffer put,
   * as often as it was put: each call received the text of one event, and the events hold the buffers.
   */
  method ReplayAndFlush(cfg: Config, codec: Codec, on: bool, ops: seq<Op>) returns (c: BufferCache, ok: bool)
    requires cfg.Valid() && Representable(cfg) && codec.Inverse()
    ensures ok <==> Run(codec, on, cfg, ops).Some?
    ensures ok ==> |c.out.flushed| == |c.out.events|
    ensures ok ==> forall i | 0 <= i < |c.out.flushed| :: c.out.flushed[i] == EventBytes(codec, c.out.events[i])
    ensures ok ==> forall t :: Emitted(codec, multiset(c.out.events), t) == Buffers(ops)[t]
    ensures ok ==> c.Valid() && forall t :: Resident(codec, cfg, c.View(), t) == 0
  {
    c, ok := Replay(cfg, codec, on, ops);
    if ok {
      ghost var s := c.View();
      c.Flush();
      forall t ensures Emitted(codec, c.out.emitted, t) == Buffers(ops)[t] {
        RunThenFlushEmitsAll(codec, on, cfg, ops, t);
      }
      forall t ensures Resident(codec, cfg, c.View(), t) == 0 {
        FlushLeavesNothing(codec, cfg, s, t);
      }
    }
  }
}
