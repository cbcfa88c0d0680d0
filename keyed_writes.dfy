/**
 * A directory of output files as a map from file name (or record key) to content.
 * `file_put_contents` and `save_json` overwrite: applying a list of writes in order
 * leaves, for each key, the value of the last write to it.
 */
module KeyedWrites {

  /** The map after performing the writes `ws` in order on `m`. */
  function Apply<K, V>(m: map<K, V>, ws: seq<(K, V)>): (r: map<K, V>)
    ensures forall k :: k in m ==> k in r
    ensures forall i :: 0 <= i < |ws| ==> ws[i].0 in r
    decreases |ws|
  {
    if ws == [] then m else Apply(m[ws[0].0 := ws[0].1], ws[1..])
  }

  /** Writes performed on an empty directory. */
  function Written<K, V>(ws: seq<(K, V)>): map<K, V> {
    Apply(map[], ws)
  }

  /** Performing writes is overlaying what they write on what was there. */
  lemma {:induction false} ApplyIsOverlay<K, V>(m: map<K, V>, ws: seq<(K, V)>)
    ensures Apply(m, ws) == m + Written(ws)
    decreases |ws|
  {
    if ws != [] {
      var w := ws[0];
      ApplyIsOverlay(m[w.0 := w.1], ws[1..]);
      ApplyIsOverlay(map[w.0 := w.1], ws[1..]);
      assert map[][w.0 := w.1] == map[w.0 := w.1];
      assert m[w.0 := w.1] == m + map[w.0 := w.1];
      assert m + (map[w.0 := w.1] + Written(ws[1..])) == (m + map[w.0 := w.1]) + Written(ws[1..]);
    }
  }

  /** One more write lands on top of the others. */
  lemma {:induction false} ApplySnoc<K, V>(m: map<K, V>, ws: seq<(K, V)>, w: (K, V))
    ensures Apply(m, ws + [w]) == Apply(m, ws)[w.0 := w.1]
    decreases |ws|
  {
    if ws == [] {
      assert ws + [w] == [w];
    } else {
      assert (ws + [w])[1..] == ws[1..] + [w];
      ApplySnoc(m[ws[0].0 := ws[0].1], ws[1..], w);
    }
  }

  /** Writes in two batches are the writes of the concatenation. */
  lemma {:induction false} ApplyAppend<K, V>(m: map<K, V>, ws: seq<(K, V)>, vs: seq<(K, V)>)
    ensures Apply(Apply(m, ws), vs) == Apply(m, ws + vs)
    decreases |ws|
  {
    if ws == [] {
      assert ws + vs == vs;
    } else {
      assert (ws + vs)[1..] == ws[1..] + vs;
      ApplyAppend(m[ws[0].0 := ws[0].1], ws[1..], vs);
    }
  }

  /** The last write to a key decides its value, whatever came before. */
  lemma {:induction false} LastWriteWins<K, V>(m: map<K, V>, ws: seq<(K, V)>, i: nat)
    requires i < |ws|
    requires forall j :: i < j < |ws| ==> ws[j].0 != ws[i].0
    ensures Apply(m, ws)[ws[i].0] == ws[i].1
    decreases |ws|
  {
    if i == 0 {
      KeyUntouched(m[ws[0].0 := ws[0].1], ws[1..], ws[0].0);
    } else {
      LastWriteWins(m[ws[0].0 := ws[0].1], ws[1..], i - 1);
    }
  }

  /** A key no write touches keeps its old value (or stays absent). */
  lemma {:induction false} KeyUntouched<K, V>(m: map<K, V>, ws: seq<(K, V)>, k: K)
    requires forall j :: 0 <= j < |ws| ==> ws[j].0 != k
    ensures k in Apply(m, ws) <==> k in m
    ensures k in m ==> Apply(m, ws)[k] == m[k]
    decreases |ws|
  {
    if ws != [] {
      KeyUntouched(m[ws[0].0 := ws[0].1], ws[1..], k);
    }
  }

  /** Running the same writes twice leaves what running them once left. */
  lemma ApplyTwice<K, V>(m: map<K, V>, ws: seq<(K, V)>)
    ensures Apply(Apply(m, ws), ws) == Apply(m, ws)
  {
    ApplyIsOverlay(m, ws);
    ApplyIsOverlay(Apply(m, ws), ws);
    assert (m + Written(ws)) + Written(ws) == m + Written(ws);
  }
}
