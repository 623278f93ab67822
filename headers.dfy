/**
 * Conversion of a record's header list into the string map stored in a
 * scheduled task (`kafkaHeadersToMap`). A Go `string` holds bytes, so the
 * map's values are the header values unchanged; Go's nil map and empty map
 * are both the empty map here.
 */
module Headers {
  import opened Go
  import opened Kafka

  type HeaderMap = map<string, Bytes>

  /** The map obtained by storing the headers one after the other, a later header overwriting an earlier one. */
  function HeadersToMap(hs: seq<Header>): (m: HeaderMap)
    ensures forall i :: 0 <= i < |hs| ==> hs[i].key in m
    ensures |m| <= |hs|
  {
    if |hs| == 0 then map[]
    else HeadersToMap(hs[..|hs| - 1])[hs[|hs| - 1].key := hs[|hs| - 1].value]
  }

  /** `kafkaHeadersToMap`: fills a fresh map in list order, so the last header with a key wins. */
  method KafkaHeadersToMap(headers: seq<Header>) returns (res: HeaderMap)
    ensures res == HeadersToMap(headers)
  {
    if |headers| == 0 {
      return map[];
    }
    res := map[];
    var i := 0;
    while i < |headers|
      invariant 0 <= i <= |headers|
      invariant res == HeadersToMap(headers[..i])
    {
      assert headers[..i + 1][..i] == headers[..i];
      res := res[headers[i].key := headers[i].value];
      i := i + 1;
    }
    assert headers[..|headers|] == headers;
  }

  /** A key is in the map exactly when some header carries it. */
  lemma {:induction false} HeadersToMapKeys(hs: seq<Header>, k: string)
    ensures k in HeadersToMap(hs) <==> exists i :: 0 <= i < |hs| && hs[i].key == k
  {
    if |hs| > 0 {
      var init := hs[..|hs| - 1];
      HeadersToMapKeys(init, k);
      if k in HeadersToMap(init) {
        var i :| 0 <= i < |init| && init[i].key == k;
        assert hs[i].key == k;
      }
      if exists i :: 0 <= i < |hs| && hs[i].key == k {
        var i :| 0 <= i < |hs| && hs[i].key == k;
        if i < |hs| - 1 {
          assert init[i].key == k;
        }
      }
    }
  }

  /** The value stored under a key is the value of the last header carrying it. */
  lemma {:induction false} HeadersToMapLastWins(hs: seq<Header>, i: nat)
    requires i < |hs|
    requires forall j :: i < j < |hs| ==> hs[j].key != hs[i].key
    ensures hs[i].key in HeadersToMap(hs) && HeadersToMap(hs)[hs[i].key] == hs[i].value
  {
    if i < |hs| - 1 {
      var init := hs[..|hs| - 1];
      assert init[i] == hs[i];
      HeadersToMapLastWins(init, i);
    }
  }

  /** A header list with no repeated key whose every header is an entry of `m`, one per entry. */
  predicate IsHeaderListOf(hs: seq<Header>, m: HeaderMap)
  {
    && |hs| == |m|
    && (forall i :: 0 <= i < |hs| ==> hs[i].key in m && m[hs[i].key] == hs[i].value)
    && (forall i, j :: 0 <= i < j < |hs| ==> hs[i].key != hs[j].key)
  }

  /** The keys carried by a header list. */
  function KeysOf(hs: seq<Header>): (ks: set<string>)
    ensures forall k :: k in ks <==> exists i :: 0 <= i < |hs| && hs[i].key == k
  {
    if |hs| == 0 then {} else KeysOf(hs[..|hs| - 1]) + {hs[|hs| - 1].key}
  }

  lemma {:induction false} DistinctKeysCount(hs: seq<Header>)
    requires forall i, j :: 0 <= i < j < |hs| ==> hs[i].key != hs[j].key
    ensures |KeysOf(hs)| == |hs|
  {
    if |hs| > 0 {
      var init := hs[..|hs| - 1];
      DistinctKeysCount(init);
      assert hs[|hs| - 1].key !in KeysOf(init);
    }
  }

  /** Turning one header per entry of a map back into a map gives the same map. */
  lemma HeaderListRoundTrip(hs: seq<Header>, m: HeaderMap)
    requires IsHeaderListOf(hs, m)
    ensures HeadersToMap(hs) == m
  {
    DistinctKeysCount(hs);
    assert KeysOf(hs) <= m.Keys;
    assert |KeysOf(hs)| == |m.Keys|;
    SubsetOfEqualSize(KeysOf(hs), m.Keys);
    forall k | k in m
      ensures k in HeadersToMap(hs) && HeadersToMap(hs)[k] == m[k]
    {
      var i :| 0 <= i < |hs| && hs[i].key == k;
      HeadersToMapLastWins(hs, i);
    }
    forall k | k in HeadersToMap(hs)
      ensures k in m
    {
      HeadersToMapKeys(hs, k);
    }
  }

  lemma SubsetOfEqualSize<T>(a: set<T>, b: set<T>)
    requires a <= b && |a| == |b|
    ensures a == b
  {
    assert b == a + (b - a);
    assert a * (b - a) == {};
    assert |b - a| == 0;
  }
}
