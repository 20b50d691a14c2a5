/** The hub's connection registry and its run loop. Each `select` iteration
    of `Run` takes exactly one register or unregister command, so the loop
    is a left fold of `Step` over the commands in the order they arrive. */
module Registry {
  import opened Regions

  datatype Command<H> = Register(conn: H) | Unregister(conn: H)

  /** `connections` is the live set (the keys of the Go map); `closed` logs,
      in order, every connection whose send queue the hub has closed;
      `regions` is the region list captured when the hub was built. */
  datatype Hub<H> = Hub(connections: set<H>, closed: seq<H>, regions: seq<string>)

  /** `NewNomadHub`: an empty registry plus a listing of the region keys as
      they are when the hub is built. */
  method NewNomadHub<H, Ch>(channels: map<string, Ch>) returns (h: Hub<H>)
    ensures h.connections == {} && h.closed == []
    ensures IsEnumeration(h.regions, channels.Keys)
  {
    var regions := EnumerateKeys(channels);
    h := Hub({}, [], regions);
  }

  /** One iteration of the run loop. */
  function Step<H>(h: Hub<H>, cmd: Command<H>): (h': Hub<H>)
    // the region snapshot is never refreshed
    ensures h'.regions == h.regions
    // register: the handle becomes live, nothing is closed, nobody else moves;
    // registering a live handle changes nothing
    ensures cmd.Register? ==>
      && cmd.conn in h'.connections
      && h'.connections - {cmd.conn} == h.connections - {cmd.conn}
      && h'.closed == h.closed
      && (cmd.conn in h.connections ==> h' == h)
    // unregister of a handle that is not live: no effect at all
    ensures cmd.Unregister? && cmd.conn !in h.connections ==> h' == h
    // unregister of a live handle: it alone leaves the set and it alone is closed, once
    ensures cmd.Unregister? && cmd.conn in h.connections ==>
      && cmd.conn !in h'.connections
      && h'.connections - {cmd.conn} == h.connections - {cmd.conn}
      && |h'.closed| == |h.closed| + 1
      && h'.closed[..|h.closed|] == h.closed
      && h'.closed[|h.closed|] == cmd.conn
  {
    match cmd
    case Register(c) => h.(connections := h.connections + {c})
    case Unregister(c) =>
      if c in h.connections then
        h.(connections := h.connections - {c}, closed := h.closed + [c])
      else
        h
  }

  /** Unregistering the same handle twice in a row closes it once: the
      second command finds it gone and does nothing. */
  lemma UnregisterTwiceClosesOnce<H>(h: Hub<H>, c: H)
    ensures Step(Step(h, Unregister(c)), Unregister(c)) == Step(h, Unregister(c))
    ensures multiset(Step(Step(h, Unregister(c)), Unregister(c)).closed)[c]
            <= multiset(h.closed)[c] + 1
  {
    var once := Step(h, Unregister(c));
    if c in h.connections {
      assert once.closed == h.closed + [c];
    }
  }

  /** The run loop after it has taken every command of `cmds`, in order.
      Which handles are live at the end is characterised by
      `LiveSetIsLastRegistered`, which queues are closed by
      `ClosedIffRegisteredThenUnregistered` and `ClosedAtMostOnce`. */
  function Run<H>(h: Hub<H>, cmds: seq<Command<H>>): (r: Hub<H>)
    // the region snapshot is never refreshed
    ensures r.regions == h.regions
    // a close is never undone: the log only grows, by at most one per command
    ensures |h.closed| <= |r.closed| <= |h.closed| + |cmds|
    ensures r.closed[..|h.closed|] == h.closed
    decreases |cmds|
  {
    if |cmds| == 0 then h else Step(Run(h, cmds[..|cmds| - 1]), cmds[|cmds| - 1])
  }

  /** Command `i` is the last one in `cmds` that mentions `c`. */
  ghost predicate LastFor<H>(cmds: seq<Command<H>>, c: H, i: int)
  {
    && 0 <= i < |cmds|
    && cmds[i].conn == c
    && forall j :: i < j < |cmds| ==> cmds[j].conn != c
  }

  /** The last command mentioning `c` is a register. */
  ghost predicate LastIsRegister<H>(cmds: seq<Command<H>>, c: H)
  {
    exists i :: LastFor(cmds, c, i) && cmds[i].Register?
  }

  /** No command mentions `c`. */
  ghost predicate Untouched<H>(cmds: seq<Command<H>>, c: H)
  {
    forall j :: 0 <= j < |cmds| ==> cmds[j].conn != c
  }

  /** Some register of `c` is followed, later, by an unregister of `c`. */
  ghost predicate RegisteredThenUnregistered<H>(cmds: seq<Command<H>>, c: H)
  {
    exists i, j :: 0 <= i < j < |cmds| && cmds[i] == Register(c) && cmds[j] == Unregister(c)
  }

  /** No handle is registered again once it has been unregistered. */
  ghost predicate NoReRegister<H>(cmds: seq<Command<H>>)
  {
    forall i, j :: 0 <= i < j < |cmds| && cmds[i].Unregister? && cmds[j].Register? ==>
      cmds[i].conn != cmds[j].conn
  }

  /** How appending one command changes who had the last word on `c`. */
  lemma LastIsRegisterSnoc<H>(init: seq<Command<H>>, x: Command<H>, c: H)
    ensures LastIsRegister(init + [x], c) <==>
      (if x.conn == c then x.Register? else LastIsRegister(init, c))
    ensures Untouched(init + [x], c) <==> x.conn != c && Untouched(init, c)
  {
    var cmds := init + [x];
    var n := |init|;
    if x.conn == c {
      assert LastFor(cmds, c, n);
      assert cmds[n] == x;
      if LastIsRegister(cmds, c) {
        var i :| LastFor(cmds, c, i) && cmds[i].Register?;
        assert i == n;
      }
    } else {
      if LastIsRegister(cmds, c) {
        var i :| LastFor(cmds, c, i) && cmds[i].Register?;
        assert i < n;
        forall j | i < j < |init| ensures init[j].conn != c {
          assert cmds[j] == init[j];
        }
        assert LastFor(init, c, i);
      }
      if LastIsRegister(init, c) {
        var i :| LastFor(init, c, i) && init[i].Register?;
        assert LastFor(cmds, c, i);
      }
      assert Untouched(cmds, c) ==> Untouched(init, c) by {
        if Untouched(cmds, c) {
          forall j | 0 <= j < |init| ensures init[j].conn != c {
            assert cmds[j] == init[j];
          }
        }
      }
    }
  }

  /** For every command sequence, a handle is live at the end exactly when
      the last command about it was a register, or when no command
      mentioned it and it was live at the start. */
  lemma {:induction false} LiveSetIsLastRegistered<H>(h: Hub<H>, cmds: seq<Command<H>>, c: H)
    ensures c in Run(h, cmds).connections <==>
      LastIsRegister(cmds, c) || (Untouched(cmds, c) && c in h.connections)
    decreases |cmds|
  {
    if |cmds| > 0 {
      var n := |cmds| - 1;
      var init := cmds[..n];
      assert cmds == init + [cmds[n]];
      LiveSetIsLastRegistered(h, init, c);
      LastIsRegisterSnoc(init, cmds[n], c);
    }
  }

  /** From an empty registry, a handle's queue has been closed exactly when
      a register of it was later followed by an unregister. */
  lemma {:induction false} ClosedIffRegisteredThenUnregistered<H>(h: Hub<H>, cmds: seq<Command<H>>, c: H)
    requires h.connections == {} && h.closed == []
    ensures c in Run(h, cmds).closed <==> RegisteredThenUnregistered(cmds, c)
    decreases |cmds|
  {
    if |cmds| > 0 {
      var n := |cmds| - 1;
      var init := cmds[..n];
      var last := cmds[n];
      var before := Run(h, init);
      ClosedIffRegisteredThenUnregistered(h, init, c);
      assert RegisteredThenUnregistered(init, c) ==> RegisteredThenUnregistered(cmds, c) by {
        if RegisteredThenUnregistered(init, c) {
          var i, j :| 0 <= i < j < |init| && init[i] == Register(c) && init[j] == Unregister(c);
          assert cmds[i] == Register(c) && cmds[j] == Unregister(c);
        }
      }
      if last == Unregister(c) && c in before.connections {
        // closing now; a register of c came earlier
        LiveSetIsLastRegistered(h, init, c);
        var i :| LastFor(init, c, i) && init[i].Register?;
        assert cmds[i] == Register(c) && cmds[n] == Unregister(c);
        assert c in Run(h, cmds).closed;
      } else if last == Unregister(c) {
        // c is not live: either never registered, or already closed
        assert Run(h, cmds) == before;
        if RegisteredThenUnregistered(cmds, c) {
          var i, j :| 0 <= i < j < |cmds| && cmds[i] == Register(c) && cmds[j] == Unregister(c);
          if j == n {
            LiveSetIsLastRegistered(h, init, c);
            // the register at i is not the last word on c in init, so an
            // unregister of c follows it inside init
            assert !Untouched(init, c) by { assert init[i].conn == c; }
            var k := LastAfter(init, c, i);
            assert init[k] == Unregister(c);
            assert RegisteredThenUnregistered(init, c);
          } else {
            assert init[i] == Register(c) && init[j] == Unregister(c);
          }
        }
      } else {
        assert c in Run(h, cmds).closed <==> c in before.closed by {
          if last.Unregister? && last.conn in before.connections {
            assert Run(h, cmds).closed == before.closed + [last.conn];
          }
        }
        if RegisteredThenUnregistered(cmds, c) {
          var i, j :| 0 <= i < j < |cmds| && cmds[i] == Register(c) && cmds[j] == Unregister(c);
          assert j != n;
          assert init[i] == Register(c) && init[j] == Unregister(c);
        }
      }
    }
  }

  /** The last command on `c` at or after position `i`, when `cmds[i]`
      mentions `c`. */
  lemma {:induction false} LastAfterExists<H>(cmds: seq<Command<H>>, c: H, i: int)
    requires 0 <= i < |cmds| && cmds[i].conn == c
    ensures exists k :: i <= k && LastFor(cmds, c, k)
    decreases |cmds| - i
  {
    if !LastFor(cmds, c, i) {
      var j :| i < j < |cmds| && cmds[j].conn == c;
      LastAfterExists(cmds, c, j);
    }
  }

  ghost function LastAfter<H>(cmds: seq<Command<H>>, c: H, i: int): (k: int)
    requires 0 <= i < |cmds| && cmds[i].conn == c
    ensures i <= k && LastFor(cmds, c, k)
  {
    LastAfterExists(cmds, c, i);
    var k :| i <= k && LastFor(cmds, c, k); k
  }

  /** From an empty registry, and as long as no handle is registered again
      after being unregistered, no send queue is closed twice. */
  lemma {:induction false} ClosedAtMostOnce<H>(h: Hub<H>, cmds: seq<Command<H>>)
    requires h.connections == {} && h.closed == []
    requires NoReRegister(cmds)
    ensures NoDup(Run(h, cmds).closed)
    decreases |cmds|
  {
    if |cmds| > 0 {
      var n := |cmds| - 1;
      var init := cmds[..n];
      var last := cmds[n];
      var before := Run(h, init);
      assert NoReRegister(init) by {
        forall i, j | 0 <= i < j < |init| && init[i].Unregister? && init[j].Register?
          ensures init[i].conn != init[j].conn
        {
          assert cmds[i] == init[i] && cmds[j] == init[j];
        }
      }
      ClosedAtMostOnce(h, init);
      if last.Unregister? && last.conn in before.connections {
        var c := last.conn;
        if c in before.closed {
          ClosedIffRegisteredThenUnregistered(h, init, c);
          var i, j :| 0 <= i < j < |init| && init[i] == Register(c) && init[j] == Unregister(c);
          LiveSetIsLastRegistered(h, init, c);
          assert false;
        }
        assert Run(h, cmds).closed == before.closed + [c];
      }
    }
  }
}
