/**
 * The key-value store the gateway talks to: the Redis database behind its
 * client.  Each request either takes effect or fails with a connection
 * error and changes nothing; which one happens is the environment's
 * choice, so every request below picks it nondeterministically.  A failed
 * request is appended to the ghost log `failed`, so that callers can state
 * what they do when nothing fails and what they leave behind when
 * something does.
 */
module KeyValueStore {

  import opened Wrappers
  import opened Codec
  import opened Collections

  datatype Reply<T> = Ok(value: T) | ConnectionError

  /** `ks` lists every key of `m` once, in some order. */
  ghost predicate IsListing(ks: seq<string>, m: map<string, Value>)
  {
    NoDup(ks) && forall k :: k in ks <==> k in m
  }

  /** A listing is as long as the map has keys. */
  lemma ListingLength(ks: seq<string>, m: map<string, Value>)
    requires IsListing(ks, m)
    ensures |ks| == |m|
  {
    NoDupCardinality(ks);
    assert Elements(ks) == m.Keys;
  }

  /** A request to the server, as recorded when it fails. */
  datatype Request = Flush | Write(key: string) | Read(key: string) | List

  class Store {

    var data: map<string, Value>

    /** The requests that have failed so far, oldest first. */
    ghost var failed: seq<Request>

    constructor ()
      ensures data == map[] && failed == []
    {
      data := map[];
      failed := [];
    }

    /** `FLUSHALL`: removes every key. */
    method FlushAll() returns (ok: bool)
      modifies this
      ensures data == if ok then map[] else old(data)
      ensures failed == if ok then old(failed) else old(failed) + [Flush]
    {
      ok :| true;
      if ok {
        data := map[];
      } else {
        failed := failed + [Flush];
      }
    }

    /** `SET key value`. */
    method Set(key: string, v: Value) returns (ok: bool)
      modifies this
      ensures data == if ok then old(data)[key := v] else old(data)
      ensures failed == if ok then old(failed) else old(failed) + [Write(key)]
    {
      ok :| true;
      if ok {
        data := data[key := v];
      } else {
        failed := failed + [Write(key)];
      }
    }

    /** `GET key`: the value, or `None` when the key is not there. */
    method Get(key: string) returns (r: Reply<Option<Value>>)
      modifies this`failed
      ensures failed == if r.Ok? then old(failed) else old(failed) + [Read(key)]
      ensures r.Ok? ==> (r.value.Some? <==> key in data)
      ensures r.Ok? && key in data ==> r.value.value == data[key]
    {
      var up: bool :| true;
      if !up {
        failed := failed + [Read(key)];
        return ConnectionError;
      }
      r := Ok(if key in data then Some(data[key]) else None);
    }

    /** `KEYS *`: every key once, in an order of the server's choosing. */
    method Keys() returns (r: Reply<seq<string>>)
      modifies this`failed
      ensures failed == if r.Ok? then old(failed) else old(failed) + [List]
      ensures r.Ok? ==> IsListing(r.value, data)
    {
      var up: bool :| true;
      if !up {
        failed := failed + [List];
        return ConnectionError;
      }
      var ks: seq<string> := [];
      var rest := data.Keys;
      while rest != {}
        invariant NoDup(ks)
        invariant forall k :: k in ks ==> k !in rest
        invariant forall k :: k in ks || k in rest <==> k in data
        decreases rest
      {
        var k :| k in rest;
        ks := ks + [k];
        rest := rest - {k};
      }
      return Ok(ks);
    }
  }
}
