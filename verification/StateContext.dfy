/** vermouth/context.go: the object that raft applies log entries to, one proxy object a port. */
module StateContext {
  import opened Text
  import opened Gateway
  import opened Snapshot
  import opened HttpProxy
  import L = LogEntry

  lemma SameMap(c: Context, d: Context)
    requires c.Keys == d.Keys && forall port :: port in c ==> c[port] == d[port]
    ensures c == d
  {
    forall port
      ensures port in c <==> port in d
      ensures port in c ==> c[port] == d[port]
    {
      assert port in c <==> port in c.Keys;
    }
  }

  lemma Fields(hp: HttpReverseProxy)
    requires hp.Valid()
    ensures hp.PrefixerType == hp.Value().prefixerType && hp.Acl.Record == hp.Value().acl.record
  {
  }

  lemma IsItsOwn(ctx: StateContext)
    requires ctx.Valid()
    ensures ctx in ctx.Repr
  {
  }

  class StateContext {
    const code: Code
    /** How handlers read the bodies of log entries. */
    const codec: L.Codec
    var HttpReverseProxyList: map<int, HttpReverseProxy>

    ghost var Repr: set<object>

    ghost predicate Valid()
      reads this, Repr
    {
      && this in Repr
      && (forall port :: port in HttpReverseProxyList ==> Owns(HttpReverseProxyList[port]))
      && (forall i, j :: i in HttpReverseProxyList && j in HttpReverseProxyList && i != j ==>
            HttpReverseProxyList[i].Repr !! HttpReverseProxyList[j].Repr)
    }

    ghost predicate Owns(proxy: HttpReverseProxy)
      reads this, Repr
    {
      && proxy in Repr && proxy in proxy.Repr && proxy.Repr <= Repr && this !in proxy.Repr
      && proxy.Valid() && proxy.code == code
    }

    ghost function Value(): (ctx: Context)
      requires Valid()
      reads this, Repr
      ensures ctx.Keys == HttpReverseProxyList.Keys
    {
      map port | port in HttpReverseProxyList :: HttpReverseProxyList[port].Value()
    }

    constructor (code: Code, codec: L.Codec)
      ensures Valid() && fresh(Repr) && this.code == code && this.codec == codec && Value() == map[]
    {
      this.code, this.codec, HttpReverseProxyList, Repr := code, codec, map[], {this};
    }

    method Put(port: int, proxy: HttpReverseProxy)
      requires Valid() && proxy.Valid() && proxy.code == code && proxy in proxy.Repr && proxy.Repr !! Repr
      modifies this
      ensures Valid() && Repr == old(Repr) + proxy.Repr && Value() == old(Value())[port := proxy.Value()]
    {
      hide HttpReverseProxy.Valid, HttpReverseProxy.Value;
      ghost var was, added := Value(), proxy.Value();
      assert this !in proxy.Repr;
      HttpReverseProxyList := HttpReverseProxyList[port := proxy];
      Repr := Repr + proxy.Repr;
      assert proxy.Value() == added;
      SameMap(Value(), was[port := added]);
    }

    /** AddHttpReverseProxy: a port in use keeps its proxy. */
    method AddHttpReverseProxy(port: int, proxy: HttpReverseProxy)
      requires Valid() && proxy.Valid() && proxy.code == code && proxy in proxy.Repr && proxy.Repr !! Repr
      modifies this
      ensures Valid() && Repr <= old(Repr) + proxy.Repr && old(Repr) <= Repr
      ensures Value() == if port in old(Value()) then old(Value()) else old(Value())[port := proxy.Value()]
    {
      hide HttpReverseProxy.Valid, HttpReverseProxy.Value, Valid, Value;
      if port !in HttpReverseProxyList {
        Put(port, proxy);
      }
    }

    /** The handler of an entry that edits one proxy. */
    method ChangeProxy(port: int, e: Edit) returns (ok: bool)
      requires Valid() && port in HttpReverseProxyList && !Closes(e)
      modifies Repr
      ensures Valid() && fresh(Repr - old(Repr)) && old(Repr) <= Repr
      ensures ok == Edited(code, old(Value())[port], e).Some?
      ensures ok ==> Value() == old(Value())[port := Edited(code, old(Value())[port], e).value]
    {
      hide HttpReverseProxy.Valid, HttpReverseProxy.Value, Edited;
      var hp := HttpReverseProxyList[port];
      ghost var was := Value();
      ok := hp.Do(e);
      Repr := Repr + hp.Repr;
      if ok {
        SameMap(Value(), was[port := hp.Value()]);
      }
    }

    /** The handler of a new proxy; an unknown prefixer type panics, also on a port in use. */
    method CreateProxy(port: int, prefixerType: string) returns (ok: bool)
      requires Valid()
      modifies this
      ensures Valid() && fresh(Repr - old(Repr)) && old(Repr) <= Repr
      ensures ok == Gateway.Apply(code, old(Value()), AddProxy(port, prefixerType)).Some?
      ensures ok ==> Value() == Gateway.Apply(code, old(Value()), AddProxy(port, prefixerType)).value
    {
      hide HttpReverseProxy.Valid, HttpReverseProxy.Value;
      if prefixerType != HASH_PREFIXER {
        return false;
      }
      var proxy := new HttpReverseProxy(code, port);
      AddHttpReverseProxy(port, proxy);
      return true;
    }

    /** Closing a proxy takes it off the list. */
    method RemoveFromList(port: int)
      requires Valid()
      modifies this
      ensures Valid() && Repr == old(Repr) && Value() == old(Value()) - {port}
    {
      hide HttpReverseProxy.Valid, HttpReverseProxy.Value;
      ghost var was := Value();
      HttpReverseProxyList := HttpReverseProxyList - {port};
      SameMap(Value(), was - {port});
    }

    /** Apply on a committed log entry: option and body are cut out of its bytes and the handler is chosen. */
    method Apply(data: seq<L.byte>) returns (ok: bool)
      requires Valid()
      modifies Repr
      ensures Valid() && fresh(Repr - old(Repr)) && old(Repr) <= Repr
      ensures ok == L.ApplyBytes(code, codec, old(Value()), data).Some?
      ensures ok ==> Value() == L.ApplyBytes(code, codec, old(Value()), data).value
    {
      hide Valid, Value, Gateway.Apply, L.HandlerOf, L.Handle;
      if |data| < L.HEADER_SIZE {
        return false;
      }
      var opt := L.BigEndian(data);
      var bidata := data[L.HEADER_SIZE..];
      var handler := L.HandlerOf(opt);
      var e := Entry.Ignored;
      if handler.Some? {
        var body := codec.decode(L.ShapeFor(handler.value), bidata);
        if body.Some? {
          e := L.Handle(handler.value, body.value);
        }
      }
      ok := ApplyEntry(e);
    }

    /** What the handlers do. */
    method ApplyEntry(e: Entry) returns (ok: bool)
      requires Valid()
      modifies Repr
      ensures Valid() && fresh(Repr - old(Repr)) && old(Repr) <= Repr
      ensures ok == Gateway.Apply(code, old(Value()), e).Some?
      ensures ok ==> Value() == Gateway.Apply(code, old(Value()), e).value
    {
      hide HttpReverseProxy.Valid, HttpReverseProxy.Value, Edited;
      ghost var was := Value();
      match e {
        case Ignored =>
          return true;
        case AddProxy(port, prefixerType) =>
          ok := CreateProxy(port, prefixerType);
        case RemoveProxy(port) =>
          if port !in HttpReverseProxyList {
            return false;
          }
          RemoveFromList(port);
          return true;
        case EditProxy(port, change) =>
          if port !in HttpReverseProxyList {
            return false;
          }
          if Closes(change) {
            RemoveFromList(port);
            return true;
          }
          ok := ChangeProxy(port, change);
      }
    }

    /** UnMarshal: each proxy of the snapshot replaces the one at its port. */
    method UnMarshal(saved: map<int, Saved>)
      requires Valid()
      modifies this
      ensures Valid() && fresh(Repr - old(Repr)) && old(Repr) <= Repr
      ensures Value() == DecodedOver(old(Value()), saved)
    {
      hide HttpReverseProxy.Valid, HttpReverseProxy.Value, Valid, Value, DecodedOver, Decoded;
      ghost var prior := Value();
      NothingDecoded(prior, saved);
      var todo := saved.Keys;
      while todo != {}
        invariant Valid() && fresh(Repr - old(Repr)) && old(Repr) <= Repr && todo <= saved.Keys
        invariant Value() == DecodedOver(prior, saved - todo)
        decreases |todo|
      {
        assert exists port :: port in todo by { NotEmpty(todo); }
        var port :| port in todo;
        var proxy := new HttpReverseProxy.Unmarshalled(code, saved[port]);
        DecodedMore(prior, saved, todo, port);
        Put(port, proxy);
        todo := todo - {port};
      }
      assert saved - {} == saved;
    }

    /**
     * One turn of Restore's loop. A tree from the snapshot has no root to add its texts to; the tree of a proxy that
     * was there before has one.
     */
    method RestoreProxy(clean: bool, port: int, decoded: bool, order: Order) returns (ok: bool)
      requires Valid() && port in HttpReverseProxyList && Members(order.texts) <= Value()[port].acl.record
      modifies Repr
      ensures Valid() && fresh(Repr - old(Repr)) && old(Repr) <= Repr
      ensures var r := Turned(code, clean, decoded, old(Value())[port], order);
              ok == r.Some? && (ok ==> Value() == old(Value())[port := r.value])
    {
      hide HttpReverseProxy.Valid, HttpReverseProxy.Value, Restored, Listed;
      var hp := HttpReverseProxyList[port];
      ghost var was := Value();
      Fields(hp);
      if decoded && !clean && hp.Acl.Record != {} {
        return false;
      }
      ok := hp.RestoreAgain(order, clean);
      Repr := Repr + hp.Repr;
      if ok {
        SameMap(Value(), was[port := hp.Value()]);
      }
    }

    /** The turn as a step towards the restored context. */
    method RestoreNext(clean: bool, port: int, ghost prior: Context, saved: map<int, Saved>, orders: map<int, Order>,
                       ghost todo: set<int>) returns (ok: bool)
      requires Valid() && Restorable(prior, saved, orders)
      requires RestoredBut(code, clean, prior, saved, orders, Value(), todo)
      requires port in todo && port in HttpReverseProxyList
      modifies Repr
      ensures Valid() && fresh(Repr - old(Repr)) && old(Repr) <= Repr
      ensures ok ==> RestoredBut(code, clean, prior, saved, orders, Value(), todo - {port})
                     && HttpReverseProxyList.Keys == old(HttpReverseProxyList.Keys)
      ensures !ok ==> Comes(code, clean, prior, saved, orders, None)
    {
      hide HttpReverseProxy.Valid, HttpReverseProxy.Value, Valid, Value, Turned, RestoredBut, Restorable, Comes;
      StillSaved(code, clean, prior, saved, orders, Value(), todo, port);
      RestoredMore(code, clean, prior, saved, orders, Value(), todo, port);
      ok := RestoreProxy(clean, port, port in saved, orders[port]);
      if ok {
        assert Value().Keys == old(Value()).Keys + {port};
      }
    }

    /** The loop. */
    method RestoreAll(clean: bool, ghost prior: Context, saved: map<int, Saved>, orders: map<int, Order>)
      returns (ok: bool)
      requires Valid() && Restorable(prior, saved, orders)
      requires RestoredBut(code, clean, prior, saved, orders, Value(), HttpReverseProxyList.Keys)
      modifies Repr
      ensures Valid() && fresh(Repr - old(Repr))
      ensures Comes(code, clean, prior, saved, orders, if ok then Some(Value()) else None)
    {
      hide HttpReverseProxy.Valid, HttpReverseProxy.Value, Valid, Value, Restorable, RestoredBut, Comes;
      var todo := HttpReverseProxyList.Keys;
      while todo != {}
        invariant Valid() && fresh(Repr - old(Repr)) && todo <= HttpReverseProxyList.Keys
        invariant RestoredBut(code, clean, prior, saved, orders, Value(), todo)
        decreases |todo|
      {
        assert exists port :: port in todo by { NotEmpty(todo); }
        var port :| port in todo;
        ok := RestoreNext(clean, port, prior, saved, orders, todo);
        if !ok {
          return;
        }
        todo := todo - {port};
      }
      AllRestored(code, clean, prior, saved, orders, Value());
      return true;
    }

    /** Restore, ranging over each proxy's maps in the given orders. */
    method Restore(clean: bool, saved: map<int, Saved>, orders: map<int, Order>) returns (ok: bool)
      requires Valid() && Restorable(Value(), saved, orders)
      modifies Repr
      ensures Valid() && fresh(Repr - old(Repr)) && orders.Keys == old(Value()).Keys + saved.Keys
      ensures RestoredContext(code, clean, old(Value()), saved, orders) == if ok then Some(Value()) else None
    {
      hide HttpReverseProxy.Valid, HttpReverseProxy.Value, Valid, Value, RestoredBut, Restorable, DecodedOver,
           RestoredContext, Comes, Turned, OrdersAll;
      IsItsOwn(this);
      ghost var prior := Value();
      UnMarshal(saved);
      NoneRestored(code, clean, prior, saved, orders, Value());
      ok := RestoreAll(clean, prior, saved, orders);
      ItComes(code, clean, prior, saved, orders, if ok then Some(Value()) else None);
    }
  }

  // ---------------------------------------------------------------- decoding

  lemma NotEmpty(ports: set<int>)
    ensures ports == {} || exists port :: port in ports
  {
    if forall port :: port !in ports {
      forall port
        ensures port in ports <==> port in {}
      {
      }
    }
  }

  lemma NothingDecoded(prior: Context, saved: map<int, Saved>)
    ensures prior == DecodedOver(prior, saved - saved.Keys)
  {
    hide Decoded;
    SameMap(prior, DecodedOver(prior, saved - saved.Keys));
  }

  lemma DecodedMore(prior: Context, saved: map<int, Saved>, todo: set<int>, port: int)
    requires port in todo && todo <= saved.Keys
    ensures DecodedOver(prior, saved - todo)[port := Decoded(saved[port])]
         == DecodedOver(prior, saved - (todo - {port}))
  {
    hide Decoded;
    var a := DecodedOver(prior, saved - todo)[port := Decoded(saved[port])];
    SameMap(a, DecodedOver(prior, saved - (todo - {port})));
  }

  // ---------------------------------------------------------------- restoring

  /** The orders are some in which the loop may meet what has been decoded. */
  ghost predicate Restorable(prior: Context, saved: map<int, Saved>, orders: map<int, Order>) {
    OrdersAll(orders, DecodedOver(prior, saved))
  }

  /** `ctx` has the restored proxies of all ports but those `todo`, which are as decoded. */
  ghost predicate RestoredBut(code: Code, clean: bool, prior: Context, saved: map<int, Saved>, orders: map<int, Order>,
                              ctx: Context, todo: set<int>)
  {
    var all := DecodedOver(prior, saved);
    && orders.Keys == all.Keys && ctx.Keys == all.Keys
    && forall port :: port in ctx ==>
         if port in todo then ctx[port] == all[port]
         else Turned(code, clean, port in saved, all[port], orders[port]) == Some(ctx[port])
  }

  /** The whole loop comes to `r`, None when it panics. */
  ghost predicate Comes(code: Code, clean: bool, prior: Context, saved: map<int, Saved>, orders: map<int, Order>,
                        r: Option<Context>)
  {
    orders.Keys == prior.Keys + saved.Keys && r == RestoredContext(code, clean, prior, saved, orders)
  }

  lemma ItComes(code: Code, clean: bool, prior: Context, saved: map<int, Saved>, orders: map<int, Order>,
                r: Option<Context>)
    requires Comes(code, clean, prior, saved, orders, r)
    ensures orders.Keys == prior.Keys + saved.Keys && r == RestoredContext(code, clean, prior, saved, orders)
  {
  }

  lemma NoneRestored(code: Code, clean: bool, prior: Context, saved: map<int, Saved>, orders: map<int, Order>,
                     ctx: Context)
    requires Restorable(prior, saved, orders) && ctx == DecodedOver(prior, saved)
    ensures RestoredBut(code, clean, prior, saved, orders, ctx, ctx.Keys)
  {
    hide DecodedOver, Turned;
  }

  lemma StillSaved(code: Code, clean: bool, prior: Context, saved: map<int, Saved>, orders: map<int, Order>,
                   ctx: Context, todo: set<int>, port: int)
    requires Restorable(prior, saved, orders) && RestoredBut(code, clean, prior, saved, orders, ctx, todo)
    requires port in todo && port in ctx
    ensures port in orders && Members(orders[port].texts) <= ctx[port].acl.record
  {
    hide Turned, DecodedOver;
    assert Orders(orders[port], Save(DecodedOver(prior, saved)[port]));
  }

  lemma RestoredMore(code: Code, clean: bool, prior: Context, saved: map<int, Saved>, orders: map<int, Order>,
                     ctx: Context, todo: set<int>, port: int)
    requires RestoredBut(code, clean, prior, saved, orders, ctx, todo) && port in todo && port in ctx
    ensures port in orders
    ensures var r := Turned(code, clean, port in saved, ctx[port], orders[port]);
            if r.Some?
            then RestoredBut(code, clean, prior, saved, orders, ctx[port := r.value], todo - {port})
            else Comes(code, clean, prior, saved, orders, None)
  {
    hide Turned;
    assert DecodedOver(prior, saved).Keys == prior.Keys + saved.Keys;
    hide DecodedOver;
  }

  lemma AllRestored(code: Code, clean: bool, prior: Context, saved: map<int, Saved>, orders: map<int, Order>,
                    ctx: Context)
    requires RestoredBut(code, clean, prior, saved, orders, ctx, {})
    ensures Comes(code, clean, prior, saved, orders, Some(ctx))
  {
    hide Turned;
    assert DecodedOver(prior, saved).Keys == prior.Keys + saved.Keys;
    AllTurned(code, clean, prior, saved, orders);
    hide DecodedOver, RestoredContext;
    SameMap(RestoredContext(code, clean, prior, saved, orders).value, ctx);
  }
}
