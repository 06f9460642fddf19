/**
 * The `RedisDB` class: bulk load of parsed CSV records into the store,
 * full scan back into records, and the recent-record fetch with
 * categorical coding that feeds the correlation heatmap.
 */
module RedisDB {

  import opened Wrappers
  import opened Collections
  import opened Codec
  import opened RecordKeys
  import opened KeyValueStore
  import opened RecentKeys
  import opened Categorical
  import Lex

  /** What `upload_csv_to_redis` does for its caller. */
  datatype UploadOutcome =
    | Returned(success: bool)  // returned True or False
    | FlushRaised              // `flushall` failed; it is outside the `try`, so the error propagates

  /** The keys a load of `n` records writes. */
  function RecordKeySet(n: nat): set<string>
  {
    set i: nat | i < n :: RecordKey(i)
  }

  /** The store after the first `|recs|` writes of a load that began with a flush. */
  function LoadedMap(recs: seq<Record>): map<string, Value>
    decreases |recs|
  {
    if recs == [] then map[]
    else LoadedMap(recs[..|recs| - 1])[RecordKey(|recs| - 1) := Encode(recs[|recs| - 1])]
  }

  /**
   * After a load of `recs`, the store holds exactly the keys `record_0` ..
   * `record_{n-1}`, one per record, and `record_i` holds the encoding of
   * the i-th record; nothing else survives the flush.
   */
  lemma {:induction false} LoadedMapContents(recs: seq<Record>)
    ensures LoadedMap(recs).Keys == RecordKeySet(|recs|)
    ensures |LoadedMap(recs)| == |recs|
    ensures forall i: nat :: i < |recs| ==> LoadedMap(recs)[RecordKey(i)] == Encode(recs[i])
    decreases |recs|
  {
    if recs != [] {
      var n := |recs| - 1;
      var init := recs[..n];
      LoadedMapContents(init);
      assert RecordKeySet(n + 1) == RecordKeySet(n) + {RecordKey(n)};
      assert RecordKey(n) !in RecordKeySet(n) by {
        forall i: nat | i < n ensures RecordKey(i) != RecordKey(n) {
          RecordKeyInjective(i, n);
        }
      }
      forall i: nat | i < |recs| ensures LoadedMap(recs)[RecordKey(i)] == Encode(recs[i]) {
        RecordKeyInjective(i, n);
        if i < n {
          assert init[i] == recs[i];
        }
      }
    }
  }

  /** One iteration of the fetch loop: what the records so far become after `GET k`. */
  function FetchStep(before: Option<seq<Record>>, k: string, m: map<string, Value>): Option<seq<Record>>
  {
    if before.None? then None
    else if k !in m then before
    else match Decode(m[k])
      case None => None
      case Some(rec) => Some(before.value + [rec])
  }

  /**
   * The fetch-and-decode loop over `keys`: a key whose `GET` finds nothing
   * is skipped, and one value that does not decode makes the whole result
   * `None`.
   */
  function DecodeEach(keys: seq<string>, m: map<string, Value>): (r: Option<seq<Record>>)
    ensures r.Some? ==> |r.value| <= |keys|
    ensures r.Some? && (forall k :: k in keys ==> k in m) ==> |r.value| == |keys|
    decreases |keys|
  {
    if keys == [] then Some([])
    else FetchStep(DecodeEach(keys[..|keys| - 1], m), keys[|keys| - 1], m)
  }

  lemma DecodeEachSnoc(keys: seq<string>, k: string, m: map<string, Value>)
    ensures DecodeEach(keys + [k], m) == FetchStep(DecodeEach(keys, m), k, m)
  {
    assert (keys + [k])[..|keys|] == keys;
  }

  /** One stored value that does not decode is enough to fail the whole fetch. */
  lemma {:induction false} DecodeEachFails(keys: seq<string>, m: map<string, Value>, k: string)
    requires k in keys && k in m && Decode(m[k]).None?
    ensures DecodeEach(keys, m).None?
    decreases |keys|
  {
    var last := keys[|keys| - 1];
    if k != last {
      assert keys == keys[..|keys| - 1] + [last];
      assert k in keys[..|keys| - 1];
      DecodeEachFails(keys[..|keys| - 1], m, k);
    }
  }

  /** When every fetched stored value decodes, the whole fetch succeeds. */
  lemma {:induction false} DecodeEachSucceeds(keys: seq<string>, m: map<string, Value>)
    requires forall k :: k in keys && k in m ==> Decode(m[k]).Some?
    ensures DecodeEach(keys, m).Some?
    decreases |keys|
  {
    if keys != [] {
      var init := keys[..|keys| - 1];
      assert forall k :: k in init ==> k in keys;
      DecodeEachSucceeds(init, m);
    }
  }

  /** Fetching `a + b` is fetching `a`, then `b`. */
  lemma {:induction false} DecodeEachAppend(a: seq<string>, b: seq<string>, m: map<string, Value>)
    ensures DecodeEach(a + b, m) ==
      if DecodeEach(a, m).Some? && DecodeEach(b, m).Some?
      then Some(DecodeEach(a, m).value + DecodeEach(b, m).value)
      else None
    decreases |b|
  {
    if b == [] {
      assert a + b == a;
      if DecodeEach(a, m).Some? {
        assert DecodeEach(a, m).value + [] == DecodeEach(a, m).value;
      }
    } else {
      var b', x := b[..|b| - 1], b[|b| - 1];
      assert a + b == (a + b') + [x] && b == b' + [x];
      DecodeEachAppend(a, b', m);
      DecodeEachSnoc(a + b', x, m);
      DecodeEachSnoc(b', x, m);
      if DecodeEach(a, m).Some? && DecodeEach(b', m).Some? && x in m && Decode(m[x]).Some? {
        var va, vb, rec := DecodeEach(a, m).value, DecodeEach(b', m).value, Decode(m[x]).value;
        assert va + vb + [rec] == va + (vb + [rec]);
      }
    }
  }

  /** Writing a key that is not fetched does not change the fetch. */
  lemma {:induction false} DecodeEachIgnoresOtherKeys(keys: seq<string>, m: map<string, Value>, k: string, v: Value)
    requires k !in keys
    ensures DecodeEach(keys, m[k := v]) == DecodeEach(keys, m)
    decreases |keys|
  {
    if keys != [] {
      assert keys == keys[..|keys| - 1] + [keys[|keys| - 1]];
      DecodeEachIgnoresOtherKeys(keys[..|keys| - 1], m, k, v);
    }
  }

  /** The key the next write of a load uses is not yet in the store. */
  lemma NextKeyFresh(recs: seq<Record>)
    ensures RecordKey(|recs|) !in LoadedMap(recs)
  {
    LoadedMapContents(recs);
    forall i: nat | i < |recs| ensures RecordKey(i) != RecordKey(|recs|) {
      RecordKeyInjective(i, |recs|);
    }
  }

  /** Takes the key `k` out of a listing of `m'[k := v]`, leaving a listing of `m'`. */
  lemma SplitListing(keys: seq<string>, m': map<string, Value>, k: string, v: Value)
    returns (front: seq<string>, back: seq<string>)
    requires k !in m' && IsListing(keys, m'[k := v])
    ensures keys == front + ([k] + back)
    ensures k !in front && k !in back
    ensures IsListing(front + back, m')
  {
    assert k in keys;
    var p :| 0 <= p < |keys| && keys[p] == k;
    front, back := keys[..p], keys[p + 1..];
    assert keys == front + ([k] + back);
    RemoveAt(keys, p);
    assert k !in front + back;
    forall x ensures x in front + back <==> x in m' {
      assert x in keys <==> x in m' || x == k;
    }
  }

  /** Fetching around one newly written key adds its record to what the others give. */
  lemma DecodeAround(front: seq<string>, back: seq<string>, m': map<string, Value>, k: string, rec: Record)
    requires k !in front && k !in back
    requires DecodeEach(front + back, m').Some?
    ensures DecodeEach(front + ([k] + back), m'[k := Encode(rec)]).Some?
    ensures multiset(DecodeEach(front + ([k] + back), m'[k := Encode(rec)]).value) ==
      multiset(DecodeEach(front + back, m').value) + multiset{rec}
  {
    var m := m'[k := Encode(rec)];
    DecodeEachIgnoresOtherKeys(front, m', k, Encode(rec));
    DecodeEachIgnoresOtherKeys(back, m', k, Encode(rec));
    DecodeEachAppend(front, back, m');
    DecodeEachAppend([k], back, m);
    DecodeEachAppend(front, [k] + back, m);
    DecodeEachSnoc([], k, m);
    assert [] + [k] == [k];
  }

  /**
   * Load then scan: however the store lists its keys, fetching them all
   * after a load of `recs` gives back the records of `recs`, each as often
   * as it was loaded, in the listing's order.
   */
  lemma {:induction false} LoadThenScan(recs: seq<Record>, keys: seq<string>)
    requires IsListing(keys, LoadedMap(recs))
    ensures DecodeEach(keys, LoadedMap(recs)).Some?
    ensures multiset(DecodeEach(keys, LoadedMap(recs)).value) == multiset(recs)
    decreases |recs|
  {
    if recs == [] {
      ListingLength(keys, LoadedMap(recs));
    } else {
      var n := |recs| - 1;
      var init, last := recs[..n], recs[n];
      var kn := RecordKey(n);
      NextKeyFresh(init);
      assert LoadedMap(recs) == LoadedMap(init)[kn := Encode(last)];
      var front, back := SplitListing(keys, LoadedMap(init), kn, Encode(last));
      LoadThenScan(init, front + back);
      DecodeAround(front, back, LoadedMap(init), kn, last);
      assert recs == init + [last];
    }
  }

  /**
   * The ordering quirk at work: after loading between 11 and 90 records,
   * the first key the recent selection picks is `record_9`, not the key of
   * the last record loaded.
   */
  lemma RecentStartsAtNine(recs: seq<Record>, keys: seq<string>)
    requires 10 < |recs| <= 90
    requires IsListing(keys, LoadedMap(recs))
    ensures |SelectRecent(keys)| > 0 && SelectRecent(keys)[0] == RecordKey(9)
    ensures SelectRecent(keys)[0] != RecordKey(|recs| - 1)
  {
    LoadedMapContents(recs);
    var m := LoadedMap(recs);
    var nine := RecordKey(9);
    assert nine in m;
    FirstSelectedIsHighest(keys, nine);
    var r := SelectRecent(keys);
    assert r[0] in multiset(keys);
    assert r[0] in m;
    var j: nat :| j < |recs| && r[0] == RecordKey(j);
    if j != 9 {
      NineOutranks(j);
    }
    RecordKeyInjective(9, |recs| - 1);
  }

  /** The recent keys of a listing are all stored, and there are `min(50000, |m|)` of them. */
  lemma RecentKeysStored(keys: seq<string>, m: map<string, Value>)
    requires IsListing(keys, m)
    ensures |SelectRecent(keys)| == Min(Limit, |m|)
    ensures forall k :: k in SelectRecent(keys) ==> k in m
  {
    ListingLength(keys, m);
    forall k | k in SelectRecent(keys) ensures k in m {
      assert k in multiset(keys);
    }
  }

  /**
   * What the heatmap step computes before plotting, given the key listing
   * it received: the coded categorical columns of the records behind the
   * recent keys, or `None` when a value does not decode or a column is
   * missing.
   */
  function RecentTable(keys: seq<string>, m: map<string, Value>): Option<seq<seq<int>>>
  {
    var fetched := DecodeEach(SelectRecent(keys), m);
    if fetched.None? then None else CodedColumns(fetched.value)
  }

  /**
   * The heatmap data has the six categorical columns, each as long as the
   * recent selection, and there is none at all for an empty store.
   */
  lemma RecentTableShape(keys: seq<string>, m: map<string, Value>)
    ensures IsListing(keys, m) && RecentTable(keys, m).Some? ==>
      |RecentTable(keys, m).value| == |CategoricalColumns|
    ensures IsListing(keys, m) && RecentTable(keys, m).Some? ==>
      forall c :: 0 <= c < |CategoricalColumns| ==> |RecentTable(keys, m).value[c]| == Min(Limit, |m|)
    ensures m == map[] ==> RecentTable(keys, m).None?
  {
    var fetched := DecodeEach(SelectRecent(keys), m);
    if IsListing(keys, m) && fetched.Some? {
      RecentKeysStored(keys, m);
    }
    if m == map[] {
      EmptyFetch(SelectRecent(keys), m);
    }
  }

  /** Fetching keys none of which is stored gives no records. */
  lemma {:induction false} EmptyFetch(keys: seq<string>, m: map<string, Value>)
    requires forall k :: k in keys ==> k !in m
    ensures DecodeEach(keys, m) == Some([])
    decreases |keys|
  {
    if keys != [] {
      var init := keys[..|keys| - 1];
      assert forall k :: k in init ==> k in keys;
      EmptyFetch(init, m);
    }
  }

  /**
   * The `for col in categorical_cols` loop: replaces each categorical
   * column by its codes, stopping with `None` at the first column the
   * frame does not have.
   */
  method EncodeCategoricals(records: seq<Record>) returns (r: Option<seq<seq<int>>>)
    ensures r == CodedColumns(records)
  {
    var table: seq<seq<int>> := [];
    for c := 0 to |CategoricalColumns|
      invariant |table| == c
      invariant forall j :: 0 <= j < c ==> HasColumn(records, CategoricalColumns[j])
      invariant forall j :: 0 <= j < c ==> table[j] == Codes(ColumnOf(records, CategoricalColumns[j]))
    {
      var name := CategoricalColumns[c];
      if !HasColumn(records, name) {
        return None;
      }
      table := table + [Codes(ColumnOf(records, name))];
    }
    var spec := CodedColumns(records);
    assert spec.Some? && table == spec.value;
    r := Some(table);
  }

  class RedisDB {

    /** The client; reading the YAML configuration to build it is not part of this model. */
    const client: Store

    constructor (client: Store)
      ensures this.client == client
    {
      this.client := client;
    }

    /**
     * `upload_csv_to_redis`: `csv` is the parsed file, `None` when reading
     * or parsing it fails.  The store is flushed before anything else and
     * is not restored when the upload then fails.
     */
    method UploadCsvToRedis(csv: Option<seq<Record>>) returns (r: UploadOutcome)
      modifies client
      ensures r.FlushRaised? ==>
        client.data == old(client.data) && client.failed == old(client.failed) + [Flush]
      ensures r == Returned(true) ==>
        csv.Some? && client.data == LoadedMap(csv.value) && client.failed == old(client.failed)
      ensures r == Returned(false) && csv.None? ==>
        client.data == map[] && client.failed == old(client.failed)
      ensures r == Returned(false) && csv.Some? ==>
        exists k :: 0 <= k < |csv.value| && client.data == LoadedMap(csv.value[..k]) &&
          client.failed == old(client.failed) + [Write(RecordKey(k))]
      ensures client.failed == old(client.failed) ==> r == Returned(csv.Some?)
    {
      var flushed := client.FlushAll();
      if !flushed {
        return FlushRaised;
      }
      if csv.None? {
        return Returned(false);
      }
      var recs := csv.value;
      for i := 0 to |recs|
        invariant client.data == LoadedMap(recs[..i])
        invariant client.failed == old(client.failed)
      {
        var ok := client.Set(RecordKey(i), Encode(recs[i]));
        if !ok {
          return Returned(false);
        }
        assert recs[..i + 1][..i] == recs[..i];
      }
      assert recs[..|recs|] == recs;
      return Returned(true);
    }

    /**
     * The fetch loop shared by the scan and the heatmap step: `GET` each
     * key in turn, skip a key with no value, decode the rest.  When no
     * request fails the result is the fetch of the keys; a failed `GET`
     * stops the loop with `None`.
     */
    method FetchRecords(keys: seq<string>) returns (r: Option<seq<Record>>)
      modifies client`failed
      ensures client.failed == old(client.failed) ==> r == DecodeEach(keys, client.data)
      ensures r.Some? ==> client.failed == old(client.failed)
      ensures client.failed == old(client.failed) ||
        exists k :: k in keys && client.failed == old(client.failed) + [Read(k)]
      ensures DecodeEach(keys, client.data).None? ==> r.None?
    {
      var records: seq<Record> := [];
      for i := 0 to |keys|
        invariant DecodeEach(keys[..i], client.data) == Some(records)
        invariant client.failed == old(client.failed)
      {
        assert keys[..i + 1][..i] == keys[..i];
        var got := client.Get(keys[i]);
        if got.ConnectionError? {
          return None;
        }
        if got.value.Some? {
          var rec := Decode(got.value.value);
          if rec.None? {
            assert keys == keys[..i + 1] + keys[i + 1..];
            DecodeEachAppend(keys[..i + 1], keys[i + 1..], client.data);
            return None;
          }
          records := records + [rec.value];
        }
      }
      assert keys[..|keys|] == keys;
      return Some(records);
    }

    /**
     * `redis_data_to_dataframe`: the records of every stored key, in the
     * store's listing order, or `None` on a failed request or an
     * undecodable value.  With no failed request an empty store gives an
     * empty result, and the result is present exactly when every stored
     * value decodes.
     */
    method RedisDataToDataframe() returns (r: Option<seq<Record>>)
      modifies client`failed
      ensures r.Some? ==> client.failed == old(client.failed)
      ensures r.Some? ==> exists keys :: IsListing(keys, client.data) && r == DecodeEach(keys, client.data)
      ensures r.Some? ==> |r.value| == |client.data|
      ensures client.failed == old(client.failed) ==>
        (r.Some? <==> forall k :: k in client.data ==> Decode(client.data[k]).Some?)
      ensures client.failed == old(client.failed) && client.data == map[] ==> r == Some([])
      ensures (exists k :: k in client.data && Decode(client.data[k]).None?) ==> r.None?
    {
      var counted := client.Keys();
      if counted.ConnectionError? {
        return None;
      }
      var listed := client.Keys();
      if listed.ConnectionError? {
        return None;
      }
      var keys := listed.value;
      r := FetchRecords(keys);
      ListingLength(keys, client.data);
      if k :| k in client.data && Decode(client.data[k]).None? {
        DecodeEachFails(keys, client.data, k);
      } else {
        DecodeEachSucceeds(keys, client.data);
      }
      if client.data == map[] {
        assert keys == [];
      }
    }

    /**
     * The data half of `heatmap_using_recent_data`: select the recent keys,
     * fetch their records, and code the categorical columns.  With no
     * failed request the result is `RecentTable` of the listing the store
     * gave; the correlation matrix and the plot are not part of this model.
     */
    method HeatmapCodes() returns (r: Option<seq<seq<int>>>)
      modifies client`failed
      ensures r.Some? ==> client.failed == old(client.failed)
      ensures client.failed == old(client.failed) ==>
        exists keys :: IsListing(keys, client.data) && r == RecentTable(keys, client.data)
      ensures r.Some? ==> |r.value| == |CategoricalColumns|
      ensures r.Some? ==> forall c :: 0 <= c < |r.value| ==> |r.value[c]| == Min(Limit, |client.data|)
      ensures client.data == map[] ==> r.None?
    {
      var listed := client.Keys();
      if listed.ConnectionError? {
        return None;
      }
      var keys := listed.value;
      var recent := SelectRecent(keys);
      var fetched := FetchRecords(recent);
      RecentTableShape(keys, client.data);
      if fetched.None? {
        return None;
      }
      r := EncodeCategoricals(fetched.value);
    }
  }
}
