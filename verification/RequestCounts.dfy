/**
The server's record of the requests it has handled: for every uri, how often each status was replied.
 */
module RequestCounts {
  import opened Wrappers
  import opened OrderedMaps

  type Counts = Pairs<string, Pairs<int, int>>

  /** One handled request: its uri and the status of its reply. */
  type Handled = (string, int)

  function CountOf(c: Counts, uri: string, status: int): int {
    match Get(c, uri)
    case None => 0
    case Some(m) => match Get(m, status) case None => 0 case Some(n) => n
  }

  /** Both levels are in the order of their keys, no uri is there in vain, and no count is below one. */
  ghost predicate WellKept(c: Counts) {
    && Sorted(StringLess, c)
    && forall x :: x in c ==> x.1 != [] && Sorted(IntLess, x.1) && forall y :: y in x.1 ==> y.1 >= 1
  }

  /** The record of the requests in `log`. */
  ghost predicate Records(c: Counts, log: seq<Handled>) {
    && WellKept(c)
    && forall uri, status :: CountOf(c, uri, status) == multiset(log)[(uri, status)]
  }

  function Statuses(c: Counts, uri: string): Pairs<int, int> {
    match Get(c, uri) case None => [] case Some(m) => m
  }

  /** The record with one more request. */
  function Record(c: Counts, uri: string, status: int): Counts {
    Put(StringLess, c, uri, Put(IntLess, Statuses(c, uri), status, CountOf(c, uri, status) + 1))
  }

  lemma StatusesKept(c: Counts, uri: string)
    requires WellKept(c)
    ensures Sorted(IntLess, Statuses(c, uri)) && forall y :: y in Statuses(c, uri) ==> y.1 >= 1
    ensures forall status :: CountOf(c, uri, status) >= 0
    ensures forall status :: CountOf(c, uri, status) > 0 <==> Get(Statuses(c, uri), status).Some?
  {
    if Get(c, uri).Some? { GetElement(c, uri); }
    var m := Statuses(c, uri);
    forall status ensures CountOf(c, uri, status) >= 0 && (CountOf(c, uri, status) > 0 <==> Get(m, status).Some?) {
      if Get(m, status).Some? { GetElement(m, status); }
    }
  }

  lemma RecordKept(c: Counts, uri: string, status: int)
    requires WellKept(c)
    ensures WellKept(Record(c, uri, status))
  {
    StringLessIsOrder();
    IntLessIsOrder();
    StatusesKept(c, uri);
    var m, n := Statuses(c, uri), CountOf(c, uri, status) + 1;
    var after := Put(IntLess, m, status, n);
    PutUpdates(IntLess, m, status, n);
    PutElements(IntLess, m, status, n);
    PutUpdates(StringLess, c, uri, after);
    PutElements(StringLess, c, uri, after);
    hide IsOrder, Sorted;
    assert after != [];
  }

  /** Recording a request adds one to its own count and to no other. */
  lemma RecordCounts(c: Counts, uri: string, status: int)
    requires WellKept(c)
    ensures WellKept(Record(c, uri, status))
    ensures forall u, s :: CountOf(Record(c, uri, status), u, s)
                        == CountOf(c, u, s) + if u == uri && s == status then 1 else 0
  {
    StringLessIsOrder();
    IntLessIsOrder();
    StatusesKept(c, uri);
    RecordKept(c, uri, status);
    var m, n := Statuses(c, uri), CountOf(c, uri, status) + 1;
    var after := Put(IntLess, m, status, n);
    hide IsOrder, Sorted, Put, WellKept;
    forall u, s ensures CountOf(Record(c, uri, status), u, s)
                     == CountOf(c, u, s) + if u == uri && s == status then 1 else 0 {
      GetPut(StringLess, c, uri, after, u);
      GetPut(IntLess, m, status, n, s);
    }
  }

  lemma RecordByCases(c: Counts, uri: string, status: int)
    ensures match Get(c, uri)
            case None => Record(c, uri, status) == Put(StringLess, c, uri, Put(IntLess, [], status, 1))
            case Some(m) =>
              var n := match Get(m, status) case None => 1 case Some(n) => n + 1;
              Record(c, uri, status) == Put(StringLess, c, uri, Put(IntLess, m, status, n))
  {}

  lemma RecordOne(c: Counts, log: seq<Handled>, uri: string, status: int)
    requires Records(c, log)
    ensures Records(Record(c, uri, status), log + [(uri, status)])
  {
    RecordCounts(c, uri, status);
    hide WellKept, Record;
  }

  function RecordAll(c: Counts, log: seq<Handled>): Counts
    decreases |log|
  {
    if log == [] then c else RecordAll(Record(c, log[0].0, log[0].1), log[1..])
  }

  lemma {:induction false} RecordsAll(c: Counts, before: seq<Handled>, log: seq<Handled>)
    requires Records(c, before)
    ensures Records(RecordAll(c, log), before + log)
    decreases |log|
  {
    hide Records;
    if log == [] {
      assert before + log == before;
    } else {
      RecordOne(c, before, log[0].0, log[0].1);
      assert before + log == before + [(log[0].0, log[0].1)] + log[1..];
      RecordsAll(Record(c, log[0].0, log[0].1), before + [(log[0].0, log[0].1)], log[1..]);
    }
  }

  /**
  After every run of requests the record holds, for each uri and status, the number of requests with that
  uri and that status.
  */
  lemma CountsEveryRun(log: seq<Handled>)
    ensures Records(RecordAll([], log), log)
  {
    RecordsAll([], [], log);
    assert [] + log == log;
  }

  /** A uri stands in the record exactly when some request had it, and a status exactly when it was replied. */
  lemma StoredIffHandled(c: Counts, log: seq<Handled>, uri: string)
    requires Records(c, log)
    ensures Get(c, uri).Some? <==> exists status :: (uri, status) in log
    ensures forall status :: Get(Statuses(c, uri), status).Some? <==> (uri, status) in log
  {
    StatusesKept(c, uri);
    assert forall status :: (uri, status) in log <==> CountOf(c, uri, status) > 0;
    if Get(c, uri).Some? {
      GetElement(c, uri);
      var m := Get(c, uri).value;
      assert Get(m, m[0].0).Some? && (uri, m[0].0) in log;
    }
  }

  /** Two records of the same requests, in whatever order they came, are the same record. */
  lemma RecordIsUnique(c: Counts, log: seq<Handled>, d: Counts, log': seq<Handled>)
    requires Records(c, log) && Records(d, log') && multiset(log) == multiset(log')
    ensures c == d
  {
    StringLessIsOrder();
    IntLessIsOrder();
    assert forall x :: x in log <==> x in multiset(log);
    assert forall x :: x in log' <==> x in multiset(log');
    forall uri ensures Get(c, uri) == Get(d, uri) {
      StatusesKept(c, uri);
      StatusesKept(d, uri);
      StoredIffHandled(c, log, uri);
      StoredIffHandled(d, log', uri);
      var m, n := Statuses(c, uri), Statuses(d, uri);
      forall s ensures Get(m, s) == Get(n, s) {
        assert CountOf(c, uri, s) == CountOf(d, uri, s);
      }
      SameLookups(IntLess, m, n);
    }
    SameLookups(StringLess, c, d);
  }

  lemma SameLookups<K(!new), V>(less: (K, K) -> bool, m: Pairs<K, V>, n: Pairs<K, V>)
    requires IsOrder(less) && Sorted(less, m) && Sorted(less, n)
    requires forall k :: Get(m, k) == Get(n, k)
    ensures m == n
  {
    forall k ensures (k in ToMap(m) <==> k in ToMap(n)) && (k in ToMap(m) ==> ToMap(m)[k] == ToMap(n)[k]) {
      GetIsLookup(m, k);
      GetIsLookup(n, k);
    }
    assert ToMap(m) == ToMap(n);
    Canonical(less, m, n);
  }

  /** The order in which requests are handled leaves no trace in the record. */
  lemma OrderLeavesNoTrace(log: seq<Handled>, log': seq<Handled>)
    requires multiset(log) == multiset(log')
    ensures RecordAll([], log) == RecordAll([], log')
  {
    CountsEveryRun(log);
    CountsEveryRun(log');
    RecordIsUnique(RecordAll([], log), log, RecordAll([], log'), log');
  }

  // ---------- the sum of all counts ----------

  function Same(n: int): int { n }

  function Requests(m: Pairs<int, int>): int { Weight(m, Same) }

  function Total(c: Counts): int { Weight(c, Requests) }

  lemma RecordTotal(c: Counts, uri: string, status: int)
    requires WellKept(c)
    ensures Total(Record(c, uri, status)) == Total(c) + 1
  {
    StringLessIsOrder();
    IntLessIsOrder();
    StatusesKept(c, uri);
    var m, n := Statuses(c, uri), CountOf(c, uri, status) + 1;
    WeightPut(IntLess, m, status, n, Same);
    WeightPut(StringLess, c, uri, Put(IntLess, m, status, n), Requests);
  }

  lemma {:induction false} TotalAll(c: Counts, log: seq<Handled>)
    requires WellKept(c)
    ensures Total(RecordAll(c, log)) == Total(c) + |log|
    decreases |log|
  {
    if log != [] {
      RecordCounts(c, log[0].0, log[0].1);
      RecordTotal(c, log[0].0, log[0].1);
      TotalAll(Record(c, log[0].0, log[0].1), log[1..]);
    }
  }

  /** All counts together are the number of requests handled. */
  lemma TotalIsLength(c: Counts, log: seq<Handled>)
    requires Records(c, log)
    ensures Total(c) == |log|
  {
    CountsEveryRun(log);
    RecordIsUnique(c, log, RecordAll([], log), log);
    TotalAll([], log);
  }

  // ---------- the record that sessions share ----------

  class RequestMap {
    var counts: Counts
    ghost var log: seq<Handled>

    ghost predicate Valid()
      reads this
    {
      Records(counts, log)
    }

    constructor ()
      ensures Valid() && log == [] && counts == []
    {
      counts, log := [], [];
    }

    /** What `handle_request` does to the shared map for one request. */
    method Add(uri: string, status: int)
      requires Valid()
      modifies this
      ensures Valid() && log == old(log) + [(uri, status)]
      ensures counts == Record(old(counts), uri, status)
    {
      hide Records, Record, Put, Get;
      RecordOne(counts, log, uri, status);
      RecordByCases(counts, uri, status);
      var found := Get(counts, uri);
      if found.Some? {
        var count := Get(found.value, status);
        if count.Some? {
          counts := Put(StringLess, counts, uri, Put(IntLess, found.value, status, count.value + 1));
        } else {
          counts := Put(StringLess, counts, uri, Put(IntLess, found.value, status, 1));
        }
      } else {
        counts := Put(StringLess, counts, uri, Put(IntLess, [], status, 1));
      }
      log := log + [(uri, status)];
    }
  }
}
