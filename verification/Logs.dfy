/**
 * The log of a sector as a map. A scan walks the slots up to the first empty one, and the newest live
 * record of a key wins.
 */
module Logs {
  import opened Flash
  import opened Records

  type Key = seq<byte>
  type Log = seq<Content>

  function KeyOf(ks: nat, body: seq<byte>): Key { if ks <= |body| then body[..ks] else body }

  function DataOf(ks: nat, body: seq<byte>): seq<byte> { if ks <= |body| then body[ks..] else [] }

  lemma KeyAndData(ks: nat, body: seq<byte>)
    requires ks <= |body|
    ensures KeyOf(ks, body) + DataOf(ks, body) == body
  {
  }

  function NextFrom(log: Log, i: nat): (n: nat)
    requires i <= |log|
    ensures i <= n <= |log|
    ensures forall j :: i <= j < n ==> log[j] != Empty
    ensures n < |log| ==> log[n] == Empty
    decreases |log| - i
  {
    if i == |log| || log[i] == Empty then i else NextFrom(log, i + 1)
  }

  /** The first empty slot. */
  function NextIdx(log: Log): (n: nat)
    ensures n <= |log|
    ensures forall j :: 0 <= j < n ==> log[j] != Empty
    ensures n < |log| ==> log[n] == Empty
  {
    NextFrom(log, 0)
  }

  lemma NextIdxIs(log: Log, n: nat)
    requires n <= |log|
    requires forall j :: 0 <= j < n ==> log[j] != Empty
    requires n < |log| ==> log[n] == Empty
    ensures NextIdx(log) == n
  {
  }

  datatype Rec = Rec(idx: nat, body: seq<byte>)

  /** The newest live record of each key among the first n slots. */
  function Newest(ks: nat, log: Log, n: nat): (m: map<Key, Rec>)
    requires n <= |log|
    ensures forall k :: k in m ==> m[k].idx < n
  {
    if n == 0 then map[]
    else
      var older := Newest(ks, log, n - 1);
      match log[n - 1]
      case Live(body) => older[KeyOf(ks, body) := Rec(n - 1, body)]
      case _ => older
  }

  function DataMap(ks: nat, m: map<Key, Rec>): map<Key, seq<byte>> {
    map k | k in m :: DataOf(ks, m[k].body)
  }

  /** The map that a log stores. */
  function View(ks: nat, log: Log): map<Key, seq<byte>> {
    DataMap(ks, Newest(ks, log, NextIdx(log)))
  }

  predicate LiveFor(ks: nat, c: Content, key: Key) {
    c.Live? && KeyOf(ks, c.body) == key
  }

  /** Newest finds exactly the live keys, and for each its last slot. */
  lemma {:induction false} NewestIsLast(ks: nat, log: Log, n: nat)
    requires n <= |log|
    ensures forall key :: key in Newest(ks, log, n) ==>
              var r := Newest(ks, log, n)[key]; LiveFor(ks, log[r.idx], key) && r.body == log[r.idx].body
    ensures forall key, j :: 0 <= j < n && LiveFor(ks, log[j], key) ==>
              key in Newest(ks, log, n) && j <= Newest(ks, log, n)[key].idx
  {
    if n > 0 {
      NewestIsLast(ks, log, n - 1);
    }
  }

  /** The first n slots hold the same live records. */
  predicate SameLive(a: Log, b: Log, n: nat)
    requires n <= |a| && n <= |b|
  {
    forall i :: 0 <= i < n ==> a[i] == b[i] || (!a[i].Live? && !b[i].Live?)
  }

  lemma {:induction false} SameNewest(ks: nat, a: Log, b: Log, n: nat)
    requires n <= |a| && n <= |b| && SameLive(a, b, n)
    ensures Newest(ks, a, n) == Newest(ks, b, n)
  {
    if n > 0 {
      SameNewest(ks, a, b, n - 1);
      assert a[n - 1] == b[n - 1] || (!a[n - 1].Live? && !b[n - 1].Live?);
    }
  }

  lemma {:induction false} DeadTail(ks: nat, log: Log, n: nat, m: nat)
    requires n <= m <= |log|
    requires forall i :: n <= i < m ==> !log[i].Live?
    ensures Newest(ks, log, m) == Newest(ks, log, n)
  {
    if n < m {
      DeadTail(ks, log, n, m - 1);
    }
  }

  /** Killing slot i can only affect its own key, */
  lemma {:induction false} KillOthers(ks: nat, log: Log, n: nat, i: nat, dead: Content, key: Key)
    requires n <= |log| && i < |log|
    requires LiveFor(ks, log[i], key) && !dead.Live?
    ensures Newest(ks, log[i := dead], n) - {key} == Newest(ks, log, n) - {key}
  {
    if n > 0 {
      KillOthers(ks, log, n - 1, i, dead, key);
      var o, o' := Newest(ks, log, n - 1), Newest(ks, log[i := dead], n - 1);
      var last := log[n - 1];
      if n - 1 == i {
        assert Newest(ks, log[i := dead], n) == o';
        assert Newest(ks, log, n) == o[key := Rec(i, last.body)];
      } else if last.Live? {
        SameUpdate(o, o', key, KeyOf(ks, last.body), Rec(n - 1, last.body));
      }
    }
  }

  lemma SameUpdate(o: map<Key, Rec>, o': map<Key, Rec>, key: Key, k: Key, r: Rec)
    requires o' - {key} == o - {key}
    ensures o'[k := r] - {key} == o[k := r] - {key}
  {
    SameElsewhere(o, o', key);
  }

  lemma SameElsewhere(o: map<Key, Rec>, o': map<Key, Rec>, key: Key)
    requires o' - {key} == o - {key}
    ensures forall k :: k != key ==> (k in o <==> k in o')
    ensures forall k :: k != key && k in o ==> o[k] == o'[k]
  {
    assert forall j :: j in o && j != key ==> j in o - {key} && o[j] == (o - {key})[j] && j in o' - {key};
    assert forall j :: j in o' && j != key ==> j in o' - {key} && j in o - {key};
  }

  /** and does not if a newer record of the key exists. */
  lemma {:induction false} KillSlot(ks: nat, log: Log, n: nat, i: nat, dead: Content, key: Key)
    requires n <= |log| && i < |log|
    requires LiveFor(ks, log[i], key) && !dead.Live?
    requires key in Newest(ks, log, n) && Newest(ks, log, n)[key].idx != i
    ensures Newest(ks, log[i := dead], n) == Newest(ks, log, n)
  {
    KillOthers(ks, log, n, i, dead, key);
    var m, m' := Newest(ks, log, n), Newest(ks, log[i := dead], n);
    SameElsewhere(m, m', key);
    if !LiveFor(ks, log[n - 1], key) {
      KillSlot(ks, log, n - 1, i, dead, key);
    } else {
      assert m.Keys == m'.Keys;
    }
  }

  /** No key has two live records among the first n slots. */
  predicate Distinct(ks: nat, log: Log, n: nat)
    requires n <= |log|
  {
    forall i, j :: 0 <= i < j < n && log[i].Live? ==> !LiveFor(ks, log[j], KeyOf(ks, log[i].body))
  }

  predicate NoShadow(ks: nat, log: Log) { Distinct(ks, log, NextIdx(log)) }

  /** The only live record of a key, if it has one, is the newest. */
  predicate Unshadowed(ks: nat, log: Log, key: Key) {
    var n := NextIdx(log);
    forall i, j :: 0 <= i < j < n && LiveFor(ks, log[i], key) ==> !LiveFor(ks, log[j], key)
  }

  /** Killing the newest record of a key uncovers an older one exactly when the key is shadowed. */
  lemma KillNewest(ks: nat, log: Log, n: nat, dead: Content, key: Key, i: nat)
    requires n == NextIdx(log)
    requires key in Newest(ks, log, n) && i == Newest(ks, log, n)[key].idx
    requires !dead.Live? && dead != Empty
    ensures NextIdx(log[i := dead]) == n
    ensures key in Newest(ks, log[i := dead], n) <==> !Unshadowed(ks, log, key)
    ensures forall k :: k != key ==> (k in Newest(ks, log[i := dead], n) <==> k in Newest(ks, log, n))
    ensures forall k :: k != key && k in Newest(ks, log, n) ==>
              Newest(ks, log[i := dead], n)[k] == Newest(ks, log, n)[k]
  {
    var log' := log[i := dead];
    NextIdxIs(log', n);
    NewestIsLast(ks, log, n);
    KillOthers(ks, log, n, i, dead, key);
    SameElsewhere(Newest(ks, log, n), Newest(ks, log', n), key);
    NewestIsLast(ks, log', n);
    if key in Newest(ks, log', n) {
      var j := Newest(ks, log', n)[key].idx;
      assert log'[j] == log[j] && j != i && LiveFor(ks, log[j], key) && LiveFor(ks, log[i], key);
    } else {
      assert forall j :: 0 <= j < n && j != i ==> log'[j] == log[j] && !LiveFor(ks, log[j], key);
    }
  }

  /** The key is gone and all others stay exactly when the key was not shadowed. */
  lemma KillNewestView(ks: nat, log: Log, dead: Content, key: Key, i: nat)
    requires key in Newest(ks, log, NextIdx(log)) && i == Newest(ks, log, NextIdx(log))[key].idx
    requires !dead.Live? && dead != Empty
    ensures View(ks, log[i := dead]) - {key} == View(ks, log) - {key}
    ensures View(ks, log[i := dead]) == View(ks, log) - {key} <==> Unshadowed(ks, log, key)
  {
    KillNewest(ks, log, NextIdx(log), dead, key, i);
  }

  // ---------------------------------------------------------------- compaction

  /** The live slots among the first n, oldest first. */
  function LiveSlots(log: Log, n: nat): (idxs: seq<nat>)
    requires n <= |log|
    ensures |idxs| == CountLive(log, n) <= n
    ensures forall j :: 0 <= j < |idxs| ==> idxs[j] < n && log[idxs[j]].Live?
  {
    if n == 0 then []
    else if log[n - 1].Live? then LiveSlots(log, n - 1) + [n - 1]
    else LiveSlots(log, n - 1)
  }

  /** A log of the given size that starts with copies of the chosen slots. */
  function Packed(log: Log, idxs: seq<nat>, size: nat): (p: Log)
    requires forall j :: 0 <= j < |idxs| ==> idxs[j] < |log|
    ensures |p| == size
  {
    seq(size, j requires 0 <= j < size => if j < |idxs| then log[idxs[j]] else Empty)
  }

  lemma PackedNext(log: Log, idxs: seq<nat>, size: nat)
    requires forall j :: 0 <= j < |idxs| ==> idxs[j] < |log| && log[idxs[j]].Live?
    requires |idxs| <= size
    ensures NextIdx(Packed(log, idxs, size)) == |idxs|
  {
    NextIdxIs(Packed(log, idxs, size), |idxs|);
  }

  lemma DataMapUpdate(ks: nat, m: map<Key, Rec>, key: Key, r: Rec)
    ensures DataMap(ks, m[key := r]) == DataMap(ks, m)[key := DataOf(ks, r.body)]
  {
  }

  /** The order-preserving compactor: every live record is kept, so the newest of each key still wins. */
  lemma {:induction false} PackedLiveSlots(ks: nat, log: Log, n: nat, size: nat)
    requires n <= |log| && CountLive(log, n) <= size
    ensures DataMap(ks, Newest(ks, Packed(log, LiveSlots(log, n), size), CountLive(log, n)))
            == DataMap(ks, Newest(ks, log, n))
  {
    if n > 0 {
      PackedLiveSlots(ks, log, n - 1, size);
      if log[n - 1].Live? {
        var idxs, older := LiveSlots(log, n), LiveSlots(log, n - 1);
        var p, q := Packed(log, idxs, size), Packed(log, older, size);
        SameNewest(ks, p, q, |older|);
        var body := log[n - 1].body;
        assert p[|older|] == Live(body);
        DataMapUpdate(ks, Newest(ks, p, |older|), KeyOf(ks, body), Rec(|older|, body));
        DataMapUpdate(ks, Newest(ks, log, n - 1), KeyOf(ks, body), Rec(n - 1, body));
      }
    }
  }

  /** Live slots of the given, pairwise different keys. */
  predicate SlotsOfKeys(ks: nat, log: Log, idxs: seq<nat>, keys: seq<Key>) {
    && |keys| == |idxs|
    && (forall j :: 0 <= j < |idxs| ==> idxs[j] < |log| && LiveFor(ks, log[idxs[j]], keys[j]))
    && (forall i, j :: 0 <= i < j < |keys| ==> keys[i] != keys[j])
  }

  /** The compactor that follows the index: each key keeps its record, in any order of the keys. */
  lemma {:induction false} PackedByKeys(ks: nat, log: Log, idxs: seq<nat>, keys: seq<Key>, size: nat)
    requires SlotsOfKeys(ks, log, idxs, keys) && |keys| <= size
    ensures Newest(ks, Packed(log, idxs, size), |keys|).Keys == set k | k in keys
    ensures forall j :: 0 <= j < |keys| ==>
              Newest(ks, Packed(log, idxs, size), |keys|)[keys[j]] == Rec(j, log[idxs[j]].body)
    ensures Distinct(ks, Packed(log, idxs, size), |keys|)
  {
    var p := Packed(log, idxs, size);
    NewestIsLast(ks, p, |keys|);
    var m := Newest(ks, p, |keys|);
    assert forall j :: 0 <= j < |keys| ==> LiveFor(ks, p[j], keys[j]);
    forall j | 0 <= j < |keys|
      ensures keys[j] in m && m[keys[j]] == Rec(j, log[idxs[j]].body)
    {
      assert LiveFor(ks, p[m[keys[j]].idx], keys[j]);
    }
    forall k | k in m
      ensures k in keys
    {
      assert k == keys[m[k].idx];
    }
  }

  // ---------------------------------------------------------------- slot counts

  function CountLive(log: Log, n: nat): nat
    requires n <= |log|
  {
    if n == 0 then 0
    else if log[n - 1].Live? then CountLive(log, n - 1) + 1
    else CountLive(log, n - 1)
  }

  function CountOf(what: Content, log: Log, n: nat): nat
    requires n <= |log|
  {
    if n == 0 then 0
    else if log[n - 1] == what then CountOf(what, log, n - 1) + 1
    else CountOf(what, log, n - 1)
  }

  lemma {:induction false} CountUpdate(what: Content, log: Log, n: nat, i: nat, c: Content)
    requires n <= |log| && i < |log|
    ensures var before, after := (if log[i] == what then 1 else 0), (if c == what then 1 else 0);
            CountOf(what, log[i := c], n) == CountOf(what, log, n) + if i < n then after - before else 0
    ensures var before, after := (if log[i].Live? then 1 else 0), (if c.Live? then 1 else 0);
            CountLive(log[i := c], n) == CountLive(log, n) + if i < n then after - before else 0
  {
    if n > 0 {
      CountUpdate(what, log, n - 1, i, c);
    }
  }

  lemma DistinctNext(ks: nat, log: Log, n: nat)
    requires 0 < n <= |log|
    ensures Distinct(ks, log, n)
            <==> Distinct(ks, log, n - 1) && !(log[n - 1].Live? && KeyOf(ks, log[n - 1].body) in Newest(ks, log, n - 1))
  {
    hide KeyOf;
    NewestIsLast(ks, log, n - 1);
    if log[n - 1].Live? && KeyOf(ks, log[n - 1].body) in Newest(ks, log, n - 1) {
      var i := Newest(ks, log, n - 1)[KeyOf(ks, log[n - 1].body)].idx;
      assert log[i].Live? && LiveFor(ks, log[n - 1], KeyOf(ks, log[i].body));
    }
  }

  /** There are as many live records as keys exactly when no record is shadowed. */
  lemma {:induction false} LiveRecordsAndKeys(ks: nat, log: Log, n: nat)
    requires n <= |log|
    ensures |Newest(ks, log, n)| <= CountLive(log, n)
    ensures |Newest(ks, log, n)| == CountLive(log, n) <==> Distinct(ks, log, n)
  {
    hide Distinct, KeyOf;
    if n == 0 {
      NothingShadowed(ks, log);
    } else {
      LiveRecordsAndKeys(ks, log, n - 1);
      DistinctNext(ks, log, n);
      var older := Newest(ks, log, n - 1);
      if log[n - 1].Live? {
        var key := KeyOf(ks, log[n - 1].body);
        assert Newest(ks, log, n).Keys == older.Keys + {key};
        if key in older { assert older.Keys + {key} == older.Keys; }
        assert |Newest(ks, log, n).Keys| == |older.Keys| + if key in older then 0 else 1;
      }
    }
  }

  lemma NothingShadowed(ks: nat, log: Log)
    ensures Distinct(ks, log, 0)
  {
  }
}
