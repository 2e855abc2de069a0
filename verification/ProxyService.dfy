/** do_proxy, one request after another: what is sent on a hit was forwarded on the
    latest miss for the same target. */
module ProxyService {
  import opened RobustIo
  import opened RecencyList
  import opened ProxyUri
  import opened ProxyRelay
  import WebCache

  /** A reply relayed to its end, with the host, port and path it was asked from. */
  datatype Reply = Reply(target: Target, data: Bytes)

  function Keyed(reply: Reply): WebCache.Item {
    WebCache.Item(Key(reply.target), reply.data)
  }

  ghost function KeyedAll(log: seq<Reply>): (r: seq<WebCache.Item>)
    ensures |r| == |log| && forall i | 0 <= i < |log| :: r[i] == Keyed(log[i])
  {
    seq(|log|, i requires 0 <= i < |log| => Keyed(log[i]))
  }

  /** The last item of the sequence with its tag. */
  ghost predicate LastUnder(keyed: seq<WebCache.Item>, x: WebCache.Item) {
    exists i :: 0 <= i < |keyed| && keyed[i] == x && forall j | i < j < |keyed| :: keyed[j].tag != x.tag
  }

  /** The last reply in the log for this target has the data. */
  ghost predicate LastReply(log: seq<Reply>, target: Target, data: Bytes) {
    exists i :: 0 <= i < |log| && log[i] == Reply(target, data) && forall j | i < j < |log| :: log[j].target != target
  }

  class Proxy {
    const cache: WebCache.Cache
    /** The replies relayed to the end so far. */
    ghost var log: seq<Reply>

    ghost predicate Valid()
      reads this, cache, cache.items, cache.recent
    {
      && cache.Valid() && WebCache.TagsDistinct(cache.Store()) && WebCache.StrictAges(cache.recent)
      && (forall i | 0 <= i < |cache.Store()| :: LastUnder(KeyedAll(log), cache.Store()[i]))
      && (forall i | 0 <= i < |log| :: Parsed(log[i].target))
    }

    constructor ()
      ensures Valid() && log == []
    {
      cache := new WebCache.Cache();
      log := [];
    }

    /** A request line's URI, through parse_uri and the cache to the origin. ok is
        whether the URI was accepted; a hit sends what the latest miss for the same
        host, port and path that was relayed to its end sent. */
    method DoProxy(uri: string, origin: Rio, writes: int) returns (ok: bool, hit: bool, sent: Bytes)
      requires Valid() && origin.Valid()
      modifies this`log, cache, cache.items
      modifies origin`rioCnt, origin`rioBufptr, origin`input, origin`obtained, origin`delivered, origin.rioBuf
      ensures Valid()
      ensures ok <==> TargetOf(uri).Some?
      ensures !ok ==> !hit && log == old(log) && cache.Store() == old(cache.Store())
      ensures ok ==> (hit <==> WebCache.HasTag(old(cache.Store()), Key(TargetOf(uri).value)))
      ensures ok && hit ==> LastReply(old(log), TargetOf(uri).value, sent) && log == old(log)
      ensures ok && !hit ==> sent == Forwarded(old(origin.Pending()), Breaks(old(origin.input)), writes)
      ensures ok && !hit ==>
                log == if writes < 0 || Pieces(old(origin.Pending()), Breaks(old(origin.input))) <= writes
                       then old(log) + [Reply(TargetOf(uri).value, sent)] else old(log)
    {
      hide TargetOf, Forwarded, Pieces, Breaks, Rio.Valid, Rio.Pending, Key, MoveToFront, WebCache.Written,
           WebCache.Cache.Store;
      var r, host, path, port := ParseUri(uri);
      ok, hit, sent := r == 0, false, [];
      if !ok {
        return;
      }
      TargetIsParsed(uri);
      hide Valid, Parsed;
      hit, sent := Serve(Target(host, port, path), origin, writes);
    }

    /** The cache lookup, the relay on a miss, and the cache update. */
    method Serve(target: Target, origin: Rio, writes: int) returns (hit: bool, sent: Bytes)
      requires Valid() && origin.Valid() && Parsed(target)
      modifies this`log, cache, cache.items
      modifies origin`rioCnt, origin`rioBufptr, origin`input, origin`obtained, origin`delivered, origin.rioBuf
      ensures Valid()
      ensures hit <==> WebCache.HasTag(old(cache.Store()), Key(target))
      ensures hit ==> LastReply(old(log), target, sent) && log == old(log)
                      && WebCache.Item(Key(target), sent) in old(cache.Store())
                      && cache.Store() == MoveToFront(old(cache.Store()), WebCache.Item(Key(target), sent))
      ensures !hit ==> sent == Forwarded(old(origin.Pending()), Breaks(old(origin.input)), writes)
      // a reply is cached exactly when the client took all its pieces
      ensures !hit && (writes < 0 || Pieces(old(origin.Pending()), Breaks(old(origin.input))) <= writes) ==>
                sent == Relayed(old(origin.Pending()), Breaks(old(origin.input)))
                && log == old(log) + [Reply(target, sent)]
                && cache.Store() == WebCache.Written(old(cache.Store()), Key(target), sent)
      ensures !hit && !(writes < 0 || Pieces(old(origin.Pending()), Breaks(old(origin.input))) <= writes) ==>
                log == old(log) && cache.Store() == old(cache.Store())
    {
      hide Relayed, Forwarded, Pieces, Breaks, Rio.Valid, Rio.Pending, WebCache.Cache.Valid, WebCache.Cache.Store,
           WebCache.StrictAges,
           WebCache.HasTag, WebCache.Written, WebCache.TagsDistinct, WebCache.Touched, Key, Parsed;
      ghost var store := cache.Store();
      ghost var keyed := KeyedAll(log);
      var tag := Key(target);
      var data, n;
      hit, data, n := cache.ReadCache(tag);
      if hit {
        sent := data;
        MoveProvenance(store, keyed, WebCache.Item(tag, sent));
        SameTarget(log, target, sent);
        return;
      }
      var completed, cacheData, size;
      sent, completed, cacheData, size := Relay(origin, writes);
      if !completed {
        return;
      }
      log := log + [Reply(target, sent)];
      assert KeyedAll(log) == keyed + [WebCache.Item(tag, sent)];
      KeepsDistinct(store, tag, sent);
      if size <= WebCache.MAX_OBJECT_SIZE {
        cache.WriteCache(tag, cacheData);
      } else {
        NotWritten(store, tag, sent);
      }
      WriteProvenance(store, keyed, tag, sent);
    }
  }

  /** An item of the store under a target's key was relayed for that very target. */
  lemma SameTarget(log: seq<Reply>, target: Target, data: Bytes)
    requires Parsed(target) && forall i | 0 <= i < |log| :: Parsed(log[i].target)
    requires LastUnder(KeyedAll(log), WebCache.Item(Key(target), data))
    ensures LastReply(log, target, data)
  {
    hide Key, Parsed;
    var keyed, x := KeyedAll(log), WebCache.Item(Key(target), data);
    var i :| 0 <= i < |keyed| && keyed[i] == x && forall j | i < j < |keyed| :: keyed[j].tag != x.tag;
    SplitKey(log[i].target, target);
    assert log[i] == Reply(target, data);
    forall j | i < j < |log| ensures log[j].target != target {
      assert keyed[j].tag == Key(log[j].target);
    }
  }

  /** A write that follows a miss keeps the tags distinct. */
  lemma KeepsDistinct(store: seq<WebCache.Item>, tag: string, data: Bytes)
    requires WebCache.TagsDistinct(store) && !WebCache.HasTag(store, tag)
    ensures WebCache.TagsDistinct(WebCache.Written(store, tag, data))
  {
    WebCache.WrittenDistinct(store, tag, data);
    var kept := WebCache.Trim(store, WebCache.MAX_CACHE_SIZE - |data|);
    hide WebCache.Trim;
    assert forall i | 0 <= i < |kept| :: kept[i] == store[i];
  }

  lemma MoveProvenance(store: seq<WebCache.Item>, relayed: seq<WebCache.Item>, x: WebCache.Item)
    requires forall i | 0 <= i < |store| :: LastUnder(relayed, store[i])
    requires x in store
    ensures LastUnder(relayed, x)
    ensures forall i | 0 <= i < |MoveToFront(store, x)| :: LastUnder(relayed, MoveToFront(store, x)[i])
  {
    var p := PlaceOf(store, x);
    WithoutAt(store, x, p);
    var moved := [x] + (store[..p] + store[p + 1..]);
    assert MoveToFront(store, x) == moved;
    hide LastUnder;
    forall i | 0 <= i < |moved| ensures LastUnder(relayed, moved[i]) {
      assert moved[i] == store[if i == 0 then p else if i <= p then i - 1 else i];
    }
  }

  /** The first place of x. */
  lemma {:induction false} PlaceOf(store: seq<WebCache.Item>, x: WebCache.Item) returns (p: nat)
    requires x in store
    ensures p < |store| && store[p] == x && forall i | 0 <= i < p :: store[i] != x
  {
    if store[0] == x {
      p := 0;
    } else {
      var q := PlaceOf(store[1..], x);
      p := q + 1;
      assert forall i | 1 <= i < p :: store[i] == store[1..][i - 1];
    }
  }

  lemma NotWritten(store: seq<WebCache.Item>, tag: string, data: Bytes)
    requires |data| > WebCache.MAX_OBJECT_SIZE
    ensures WebCache.Written(store, tag, data) == store
  {
  }

  lemma WriteProvenance(store: seq<WebCache.Item>, relayed: seq<WebCache.Item>, tag: string, data: Bytes)
    requires !WebCache.HasTag(store, tag) && forall i | 0 <= i < |store| :: LastUnder(relayed, store[i])
    ensures var after := WebCache.Written(store, tag, data);
            forall i | 0 <= i < |after| :: LastUnder(relayed + [WebCache.Item(tag, data)], after[i])
  {
    var kept := WebCache.Trim(store, WebCache.MAX_CACHE_SIZE - |data|);
    var after := WebCache.Written(store, tag, data);
    var x := WebCache.Item(tag, data);
    hide WebCache.Trim, LastUnder;
    NewestLast(relayed, x);
    forall i | 0 <= i < |after| ensures LastUnder(relayed + [x], after[i]) {
      if |data| <= WebCache.MAX_OBJECT_SIZE && i > 0 {
        assert after[i] == kept[i - 1] == store[i - 1];
        StillLast(relayed, store[i - 1], x);
      } else if |data| > WebCache.MAX_OBJECT_SIZE {
        StillLast(relayed, store[i], x);
      }
    }
  }

  lemma NewestLast(keyed: seq<WebCache.Item>, x: WebCache.Item)
    ensures LastUnder(keyed + [x], x)
  {
    assert (keyed + [x])[|keyed|] == x;
  }

  lemma StillLast(keyed: seq<WebCache.Item>, y: WebCache.Item, x: WebCache.Item)
    requires LastUnder(keyed, y) && y.tag != x.tag
    ensures LastUnder(keyed + [x], y)
  {
    var i :| 0 <= i < |keyed| && keyed[i] == y && forall j | i < j < |keyed| :: keyed[j].tag != y.tag;
    assert (keyed + [x])[i] == y;
  }
}
