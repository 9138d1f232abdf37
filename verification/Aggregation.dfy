/** The historical query: one database file per local hour, swept hour by hour, with the
    counts of all files added up in a chained hash table. */
module Aggregation {

  const SLOTS: nat := 4096
  const HOUR: nat := 3600
  const NANO: nat := 1_000_000_000

  datatype Entry = Entry(key: string, value: int)

  // ----- the hash table -----

  /** DJB2 over 64-bit arithmetic. */
  function HashFrom(h: nat, key: string): (r: nat)
    decreases key
  {
    if key == [] then h else HashFrom((h * 33 + key[0] as nat) % 0x1_0000_0000_0000_0000, key[1..])
  }

  function Hash(key: string): (slot: nat)
    ensures slot < SLOTS
  {
    HashFrom(5381, key) % SLOTS
  }

  /** Every character multiplies the hash by 33 and is added, in 64 bits. */
  lemma {:induction false} HashMore(h: nat, key: string, c: char)
    ensures HashFrom(h, key + [c]) == (HashFrom(h, key) * 33 + c as nat) % 0x1_0000_0000_0000_0000
    ensures Hash([]) == 5381 % 4096
    decreases key
  {
    if key == [] {
      assert (key + [c])[1..] == [];
    } else {
      assert (key + [c])[1..] == key[1..] + [c];
      HashMore((h * 33 + key[0] as nat) % 0x1_0000_0000_0000_0000, key[1..], c);
    }
  }

  /** The sum of the values stored for a key in a chain or any other list of entries. */
  ghost function Sum(es: seq<Entry>, key: string): int
  {
    if es == [] then 0 else (if es[0].key == key then es[0].value else 0) + Sum(es[1..], key)
  }

  /** Every key occurs once, in its own slot. */
  ghost predicate ChainOk(es: seq<Entry>, slot: nat)
  {
    && (forall i :: 0 <= i < |es| ==> Hash(es[i].key) == slot)
    && (forall i, j :: 0 <= i < j < |es| ==> es[i].key != es[j].key)
  }

  lemma {:induction false} SumAbsent(es: seq<Entry>, key: string)
    requires forall i :: 0 <= i < |es| ==> es[i].key != key
    ensures Sum(es, key) == 0
  {
    if es != [] { SumAbsent(es[1..], key); }
  }

  lemma {:induction false} SumConcat(a: seq<Entry>, b: seq<Entry>, key: string)
    ensures Sum(a + b, key) == Sum(a, key) + Sum(b, key)
  {
    if a == [] {
      assert a + b == b;
    } else {
      assert (a + b)[1..] == a[1..] + b;
      SumConcat(a[1..], b, key);
    }
  }

  lemma {:induction false} SumChain(es: seq<Entry>, c: seq<Entry>, slot: nat, key: string)
    requires ChainOk(c, slot)
    ensures Sum(es + c, key) == Sum(es, key) + if Hash(key) == slot then Sum(c, key) else 0
  {
    SumConcat(es, c, key);
    if Hash(key) != slot { SumAbsent(c, key); }
  }

  /** The chain of a later slot repeats no key. */
  lemma {:induction false} ChainBehind(es: seq<Entry>, c: seq<Entry>, slot: nat)
    requires ChainOk(c, slot) && forall i :: 0 <= i < |es| ==> Hash(es[i].key) < slot
    requires forall i, j :: 0 <= i < j < |es| ==> es[i].key != es[j].key
    ensures forall i :: 0 <= i < |es + c| ==> Hash((es + c)[i].key) < slot + 1
    ensures forall i, j :: 0 <= i < j < |es + c| ==> (es + c)[i].key != (es + c)[j].key
  {
  }

  lemma {:induction false} SumUpdate(es: seq<Entry>, i: nat, v: int, key: string)
    requires i < |es|
    ensures Sum(es[i := es[i].(value := es[i].value + v)], key) == Sum(es, key) + if es[i].key == key then v else 0
  {
    var es' := es[i := es[i].(value := es[i].value + v)];
    if i == 0 {
      assert es'[1..] == es[1..];
    } else {
      assert es'[1..] == es[1..][i - 1 := es[i].(value := es[i].value + v)];
      SumUpdate(es[1..], i - 1, v, key);
    }
  }

  lemma {:induction false} SumHasEntry(es: seq<Entry>, key: string)
    ensures Sum(es, key) != 0 ==> exists e :: e in es && e.key == key
  {
    if es != [] {
      SumHasEntry(es[1..], key);
      assert es[0] in es;
    }
  }

  /** Where every key occurs once, the sum of a key is the value of its entry. */
  lemma {:induction false} PrintedOnce(es: seq<Entry>)
    requires forall i, j :: 0 <= i < j < |es| ==> es[i].key != es[j].key
    ensures forall e :: e in es ==> Sum(es, e.key) == e.value
  {
    if es != [] {
      var r := es[1..];
      assert forall i :: 0 <= i < |r| ==> r[i] == es[i + 1];
      PrintedOnce(r);
      SumAbsent(r, es[0].key);
      forall e | e in r
        ensures e.key != es[0].key
      {
        var i :| 0 <= i < |r| && r[i] == e;
      }
    }
  }

  class Table {
    const chains: array<seq<Entry>>

    ghost predicate Valid()
      reads this, chains
    {
      chains.Length == SLOTS && forall s :: 0 <= s < SLOTS ==> ChainOk(chains[s], s)
    }

    /** The value stored for a key. */
    ghost function Total(key: string): int
      requires Valid()
      reads this, chains
    {
      Sum(chains[Hash(key)], key)
    }

    /** The table has this entry. */
    ghost predicate Stored(e: Entry)
      requires Valid()
      reads this, chains
    {
      e in chains[Hash(e.key)]
    }

    /** Every value stored is positive. */
    ghost predicate Positive()
      requires Valid()
      reads this, chains
    {
      forall e :: Stored(e) ==> e.value > 0
    }

    constructor ()
      ensures Valid() && fresh(chains) && Positive() && forall k :: Total(k) == 0
    {
      chains := new seq<Entry>[SLOTS](_ => []);
    }

    /** The position of a key in a chain, or its length. */
    method Find(es: seq<Entry>, key: string) returns (i: nat)
      ensures i <= |es| && (i < |es| ==> es[i].key == key)
      ensures i == |es| ==> forall j :: 0 <= j < |es| ==> es[j].key != key
    {
      i := 0;
      while i < |es| && es[i].key != key
        invariant i <= |es| && forall j :: 0 <= j < i ==> es[j].key != key
      {
        i := i + 1;
      }
    }

    /** Adds to the value of a key, in place or in a new entry at the head of its chain. */
    method Insert(key: string, value: int)
      requires Valid()
      modifies chains
      ensures Valid() && forall k :: Total(k) == old(Total(k)) + if k == key then value else 0
      ensures old(Positive()) && value > 0 ==> Positive()
    {
      var slot := Hash(key);
      var es := chains[slot];
      var i := Find(es, key);
      ghost var es';
      assert Positive() ==> forall e :: e in es ==> e.value > 0 by {
        assert forall e :: e in es ==> Hash(e.key) == slot && Stored(e);
      }
      if i < |es| {
        es' := es[i := es[i].(value := es[i].value + value)];
        chains[slot] := es[i := es[i].(value := es[i].value + value)];
        forall k ensures Sum(es', k) == Sum(es, k) + if k == key then value else 0 { SumUpdate(es, i, value, k); }
      } else {
        es' := [Entry(key, value)] + es;
        chains[slot] := [Entry(key, value)] + es;
        forall k ensures Sum(es', k) == Sum(es, k) + if k == key then value else 0 { assert es'[1..] == es; }
      }
    }

    /** The lines printed, slot by slot: exactly the entries, so every key once, with its
        value. */
    method Foreach() returns (out: seq<Entry>)
      requires Valid()
      ensures forall e :: e in out <==> Stored(e)
      ensures forall k :: Sum(out, k) == Total(k)
      ensures forall i, j :: 0 <= i < j < |out| ==> out[i].key != out[j].key
    {
      out := [];
      for s := 0 to SLOTS
        invariant forall i :: 0 <= i < |out| ==> Hash(out[i].key) < s
        invariant forall e :: e in out <==> Hash(e.key) < s && Stored(e)
        invariant forall i, j :: 0 <= i < j < |out| ==> out[i].key != out[j].key
        invariant forall k :: Sum(out, k) == if Hash(k) < s then Total(k) else 0
      {
        forall k ensures Sum(out + chains[s], k) == if Hash(k) < s + 1 then Total(k) else 0 {
          SumChain(out, chains[s], s, k);
        }
        ChainBehind(out, chains[s], s);
        out := out + chains[s];
      }
    }
  }

  // ----- rows and files -----

  datatype Text = Null | Text(value: string)

  datatype Row = Row(timestamp: nat, pid: int, name: Text, stack: Text)

  datatype Query = Query(start: int, end: int, pid: int, name: Text)

  /** The conditions of the query. A bound or a process number is applied if positive. */
  predicate Passes(q: Query, r: Row)
  {
    && (q.start > 0 ==> r.timestamp >= q.start * NANO)
    && (q.end > 0 ==> r.timestamp <= q.end * NANO)
    && (q.pid > 0 ==> r.pid == q.pid)
    && (q.name.Text? ==> r.name == q.name)
  }

  /** How many of the rows pass and have the given stack. */
  ghost function Count(q: Query, rows: seq<Row>, stack: string): nat
  {
    if rows == [] then 0 else
    (if Passes(q, rows[0]) && rows[0].stack == Text(stack) then 1 else 0) + Count(q, rows[1..], stack)
  }

  /** How many of the rows satisfy `p`. */
  ghost function CountIf(rows: seq<Row>, p: Row -> bool): nat
  {
    if rows == [] then 0 else (if p(rows[0]) then 1 else 0) + CountIf(rows[1..], p)
  }

  /** The places of the rows that satisfy `p` are as many. */
  lemma {:induction false} CountIfPlaces(rows: seq<Row>, p: Row -> bool)
    ensures CountIf(rows, p) == |set i | 0 <= i < |rows| && p(rows[i])|
  {
    var s := set i | 0 <= i < |rows| && p(rows[i]);
    if rows != [] {
      var n := |rows| - 1;
      CountIfPlaces(rows[..n], p);
      assert rows == rows[..n] + [rows[n]];
      CountIfMore(rows[..n], rows[n], p);
      var s' := set i | 0 <= i < n && p(rows[..n][i]);
      assert s == s' + if p(rows[n]) then {n} else {};
    } else {
      assert s == {};
    }
  }

  lemma {:induction false} CountIfMore(rows: seq<Row>, r: Row, p: Row -> bool)
    ensures CountIf(rows + [r], p) == CountIf(rows, p) + if p(r) then 1 else 0
  {
    if rows == [] {
      assert (rows + [r])[1..] == [];
    } else {
      assert (rows + [r])[1..] == rows[1..] + [r];
      CountIfMore(rows[1..], r, p);
    }
  }

  lemma {:induction false} CountIs(q: Query, rows: seq<Row>, stack: string, p: Row -> bool)
    requires forall r :: p(r) <==> Passes(q, r) && r.stack == Text(stack)
    ensures Count(q, rows, stack) == CountIf(rows, p)
  {
    if rows != [] { CountIs(q, rows[1..], stack, p); }
  }

  /** How many rows of the files for `hours` satisfy `p`. */
  ghost function CountFiles(files: Files, hours: seq<int>, p: Row -> bool): nat
  {
    if hours == [] then 0 else
    var n := |hours| - 1;
    CountFiles(files, hours[..n], p) + CountIf(FileRows(files, hours[n]), p)
  }

  datatype Group = Group(pid: int, name: Text, stack: Text, count: nat)

  predicate Same(g: Group, r: Row) { g.pid == r.pid && g.name == r.name && g.stack == r.stack }

  /** Counts a row in its group, which is added if it is new. */
  function AddRow(gs: seq<Group>, r: Row): seq<Group>
  {
    if gs == [] then [Group(r.pid, r.name, r.stack, 1)]
    else if Same(gs[0], r) then [gs[0].(count := gs[0].count + 1)] + gs[1..]
    else [gs[0]] + AddRow(gs[1..], r)
  }

  /** The groups of the rows that pass, by process, name and stack. */
  function Select(q: Query, rows: seq<Row>): seq<Group>
  {
    if rows == [] then []
    else
      var gs := Select(q, rows[1..]);
      if Passes(q, rows[0]) then AddRow(gs, rows[0]) else gs
  }

  ghost function GroupSum(gs: seq<Group>, stack: string): nat
  {
    if gs == [] then 0 else (if gs[0].stack == Text(stack) then gs[0].count else 0) + GroupSum(gs[1..], stack)
  }

  lemma {:induction false} AddRowSum(gs: seq<Group>, r: Row, stack: string)
    ensures GroupSum(AddRow(gs, r), stack) == GroupSum(gs, stack) + if r.stack == Text(stack) then 1 else 0
  {
    if gs != [] && !Same(gs[0], r) { AddRowSum(gs[1..], r, stack); }
  }

  /** Grouping by more than the stack does not change the total of a stack. */
  lemma {:induction false} SelectSum(q: Query, rows: seq<Row>, stack: string)
    ensures GroupSum(Select(q, rows), stack) == Count(q, rows, stack)
  {
    if rows != [] {
      SelectSum(q, rows[1..], stack);
      AddRowSum(Select(q, rows[1..]), rows[0], stack);
    }
  }

  ghost predicate AllCounted(gs: seq<Group>) { forall g :: g in gs ==> g.count > 0 }

  lemma {:induction false} AddRowCounts(gs: seq<Group>, r: Row)
    requires AllCounted(gs)
    ensures AllCounted(AddRow(gs, r))
  {
    if gs != [] && !Same(gs[0], r) { AddRowCounts(gs[1..], r); }
  }

  /** No group is empty. */
  lemma {:induction false} SelectCounts(q: Query, rows: seq<Row>)
    ensures AllCounted(Select(q, rows))
  {
    if rows != [] {
      SelectCounts(q, rows[1..]);
      AddRowCounts(Select(q, rows[1..]), rows[0]);
    }
  }

  /** The remainder of C, which takes the sign of the dividend. */
  function Rem(a: int, n: nat): int
    requires 0 < n
  {
    if a >= 0 then a % n else -((-a) % n)
  }

  /** The number of the local hour that contains a second, `off` seconds east of UTC. */
  function LocalHour(sec: int, off: int): int { (sec + off) / HOUR }

  /** The files of an unsharded log: each row is in the file of its local hour. */
  ghost function Shard(log: seq<Row>, off: int, hour: int): seq<Row>
  {
    if log == [] then []
    else (if LocalHour(log[0].timestamp / NANO, off) == hour then [log[0]] else []) + Shard(log[1..], off, hour)
  }

  type Files = map<int, seq<Row>>

  function FileRows(files: Files, hour: int): seq<Row> { if hour in files then files[hour] else [] }

  ghost predicate Sharded(files: Files, log: seq<Row>, off: int)
  {
    forall h: int :: FileRows(files, h) == Shard(log, off, h)
  }

  // ----- the sweep -----

  /** The first second the sweep looks at. */
  function SweepStart(start: int): int { start - Rem(start, HOUR) }

  /** The number of files it opens. */
  ghost function SweepLength(start: int, end: int): nat
  {
    if SweepStart(start) > end then 0 else (end - SweepStart(start)) / HOUR + 1
  }

  /** The passing rows with a given stack in `n` consecutive files. */
  ghost function SweepCount(q: Query, files: Files, hour: int, n: nat, stack: string): nat
  {
    if n == 0 then 0 else SweepCount(q, files, hour, n - 1, stack) + Count(q, FileRows(files, hour + n - 1), stack)
  }

  /** Adds the groups of one file. Groups without a stack are left out. */
  method AddGroups(t: Table, gs: seq<Group>)
    requires t.Valid()
    modifies t.chains
    ensures t.Valid() && forall k :: t.Total(k) == old(t.Total(k)) + GroupSum(gs, k)
    ensures old(t.Positive()) && AllCounted(gs) ==> t.Positive()
  {
    var i := 0;
    while i < |gs|
      invariant i <= |gs| && t.Valid() && (old(t.Positive()) && AllCounted(gs) ==> t.Positive())
      invariant forall k :: t.Total(k) + GroupSum(gs[i..], k) == old(t.Total(k)) + GroupSum(gs, k)
    {
      assert gs[i..][1..] == gs[i + 1..] && gs[i..][0] == gs[i];
      if gs[i].stack.Text? { t.Insert(gs[i].stack.value, gs[i].count); }
      i := i + 1;
    }
  }

  /** Adds what one file holds. */
  method AddFile(t: Table, q: Query, rows: seq<Row>)
    requires t.Valid() && t.Positive()
    modifies t.chains
    ensures t.Valid() && t.Positive() && forall k :: t.Total(k) == old(t.Total(k)) + Count(q, rows, k)
  {
    forall k ensures GroupSum(Select(q, rows), k) == Count(q, rows, k) { SelectSum(q, rows, k); }
    SelectCounts(q, rows);
    AddGroups(t, Select(q, rows));
  }

  /** The passing rows with a given stack in all the files that the query opens. */
  ghost function Swept(q: Query, files: Files, off: int, stack: string): nat
  {
    SweepCount(q, files, LocalHour(SweepStart(q.start), off), SweepLength(q.start, q.end), stack)
  }

  /** Opens the files hour by hour and adds up their groups. */
  method Sweep(files: Files, off: int, q: Query) returns (t: Table, ghost hours: seq<int>)
    ensures t.Valid() && t.Positive() && forall k :: t.Total(k) == Swept(q, files, off, k)
    ensures |hours| == SweepLength(q.start, q.end)
    ensures forall i :: 0 <= i < |hours| ==> hours[i] == LocalHour(SweepStart(q.start), off) + i
  {
    t := new Table();
    var cur := SweepStart(q.start);
    ghost var h0 := LocalHour(cur, off);
    hours := [];
    while cur <= q.end
      invariant t.Valid() && fresh(t.chains) && t.Positive()
      invariant cur == SweepStart(q.start) + HOUR * |hours| && |hours| <= SweepLength(q.start, q.end)
      invariant forall i :: 0 <= i < |hours| ==> hours[i] == h0 + i
      invariant forall k :: t.Total(k) == SweepCount(q, files, h0, |hours|, k)
      decreases q.end - cur
    {
      var hour := LocalHour(cur, off);
      NextHour(SweepStart(q.start), off, |hours|);
      AddFile(t, q, FileRows(files, hour));
      hours := hours + [hour];
      cur := cur + HOUR;
    }
  }

  /** The whole query over the files: one line for each stack that has rows there, with
      their number. */
  method Run(files: Files, off: int, q: Query) returns (out: seq<Entry>, ghost hours: seq<int>)
    ensures forall i, j :: 0 <= i < j < |out| ==> out[i].key != out[j].key
    ensures forall e :: e in out ==> e.value == Swept(q, files, off, e.key) > 0
    ensures forall k, v :: Entry(k, v) in out <==>
              v > 0 && v == CountFiles(files, hours, (r: Row) =>
                  && (q.start > 0 ==> r.timestamp >= q.start * 1_000_000_000)
                  && (q.end > 0 ==> r.timestamp <= q.end * 1_000_000_000)
                  && (q.pid > 0 ==> r.pid == q.pid)
                  && (q.name != Null ==> r.name == q.name)
                  && r.stack == Text(k))
    ensures forall k :: Swept(q, files, off, k) > 0 ==> exists e :: e in out && e.key == k
    ensures |hours| == SweepLength(q.start, q.end)
    ensures forall i :: 0 <= i < |hours| ==> hours[i] == LocalHour(SweepStart(q.start), off) + i
  {
    var t;
    t, hours := Sweep(files, off, q);
    out := t.Foreach();
    PrintedOnce(out);
    forall k | Swept(q, files, off, k) > 0
      ensures exists e :: e in out && e.key == k
    {
      SumHasEntry(out, k);
    }
    forall k
      ensures Swept(q, files, off, k) == CountFiles(files, hours, (r: Row) =>
                && (q.start > 0 ==> r.timestamp >= q.start * 1_000_000_000)
                && (q.end > 0 ==> r.timestamp <= q.end * 1_000_000_000)
                && (q.pid > 0 ==> r.pid == q.pid)
                && (q.name != Null ==> r.name == q.name)
                && r.stack == Text(k))
    {
      SweptIs(q, files, LocalHour(SweepStart(q.start), off), hours, k, (r: Row) =>
                && (q.start > 0 ==> r.timestamp >= q.start * 1_000_000_000)
                && (q.end > 0 ==> r.timestamp <= q.end * 1_000_000_000)
                && (q.pid > 0 ==> r.pid == q.pid)
                && (q.name != Null ==> r.name == q.name)
                && r.stack == Text(k));
    }
    forall k, v | v > 0 && v == Swept(q, files, off, k)
      ensures Entry(k, v) in out
    {
      var e :| e in out && e.key == k;
      assert e == Entry(k, v);
    }
  }

  lemma {:induction false} SweptIs(q: Query, files: Files, hour: int, hours: seq<int>, stack: string, p: Row -> bool)
    requires forall i :: 0 <= i < |hours| ==> hours[i] == hour + i
    requires forall r :: p(r) <==> Passes(q, r) && r.stack == Text(stack)
    ensures SweepCount(q, files, hour, |hours|, stack) == CountFiles(files, hours, p)
  {
    if hours != [] {
      var n := |hours| - 1;
      SweptIs(q, files, hour, hours[..n], stack, p);
      CountIs(q, FileRows(files, hours[n]), stack, p);
    }
  }

  /** The rows that satisfy `p`. */
  ghost function Filter(rows: seq<Row>, p: Row -> bool): seq<Row>
  {
    if rows == [] then [] else (if p(rows[0]) then [rows[0]] else []) + Filter(rows[1..], p)
  }

  lemma {:induction false} FilterKeepsCount(q: Query, rows: seq<Row>, stack: string, p: Row -> bool)
    requires forall r :: Passes(q, r) ==> p(r)
    ensures Count(q, Filter(rows, p), stack) == Count(q, rows, stack)
  {
    if rows != [] {
      FilterKeepsCount(q, rows[1..], stack, p);
      var f := Filter(rows[1..], p);
      if p(rows[0]) { assert ([rows[0]] + f)[1..] == f; } else { assert [] + f == f; }
    }
  }

  lemma {:induction false} FilterKeepsSweep(q: Query, files: Files, files': Files, hour: int, n: nat, stack: string,
                                            p: Row -> bool)
    requires forall r :: Passes(q, r) ==> p(r)
    requires forall h: int :: FileRows(files', h) == Filter(FileRows(files, h), p)
    ensures SweepCount(q, files', hour, n, stack) == SweepCount(q, files, hour, n, stack)
  {
    if n > 0 {
      FilterKeepsSweep(q, files, files', hour, n - 1, stack, p);
      FilterKeepsCount(q, FileRows(files, hour + n - 1), stack, p);
    }
  }

  /** Rows of other processes do not matter to a query for one process. */
  lemma {:induction false} OtherProcessesIgnored(q: Query, files: Files, files': Files, off: int, stack: string)
    requires q.pid > 0 && forall h: int :: FileRows(files', h) == Filter(FileRows(files, h), (r: Row) => r.pid == q.pid)
    ensures Swept(q, files', off, stack) == Swept(q, files, off, stack)
  {
    FilterKeepsSweep(q, files, files', LocalHour(SweepStart(q.start), off), SweepLength(q.start, q.end), stack,
                     (r: Row) => r.pid == q.pid);
  }

  /** Rows with other names do not matter to a query for one name. */
  lemma {:induction false} OtherNamesIgnored(q: Query, files: Files, files': Files, off: int, stack: string)
    requires q.name != Null
    requires forall h: int :: FileRows(files', h) == Filter(FileRows(files, h), (r: Row) => r.name == q.name)
    ensures Swept(q, files', off, stack) == Swept(q, files, off, stack)
  {
    FilterKeepsSweep(q, files, files', LocalHour(SweepStart(q.start), off), SweepLength(q.start, q.end), stack,
                     (r: Row) => r.name == q.name);
  }

  /** In seconds: the sweep starts at the whole hour at or before its start, looks at every
      hour up to its end, and the file of a second is that of its hour in local time. */
  lemma {:induction false} SweepInSeconds(start: int, end: int, sec: int, off: int)
    ensures SweepStart(start) == if start >= 0 then start / 3600 * 3600 else -(-start / 3600 * 3600)
    ensures 0 <= start <= end ==> SweepLength(start, end) == end / 3600 - start / 3600 + 1
    ensures LocalHour(sec, off) == (sec + off) / 3600
  {
  }

  lemma {:induction false} NextHour(start: int, off: int, n: nat)
    ensures LocalHour(start + HOUR * n, off) == LocalHour(start, off) + n
  {
  }

  // ----- the sweep agrees with the log -----

  /** The passing rows of the log whose file is one of the `n` from `hour` on. */
  ghost function CountIn(q: Query, log: seq<Row>, off: int, hour: int, n: nat, stack: string): nat
  {
    if log == [] then 0 else
    var h := LocalHour(log[0].timestamp / NANO, off);
    (if Passes(q, log[0]) && log[0].stack == Text(stack) && hour <= h < hour + n then 1 else 0)
    + CountIn(q, log[1..], off, hour, n, stack)
  }

  lemma {:induction false} CountNone(q: Query, log: seq<Row>, off: int, hour: int, stack: string)
    ensures CountIn(q, log, off, hour, 0, stack) == 0
  {
    if log != [] { CountNone(q, log[1..], off, hour, stack); }
  }

  lemma {:induction false} CountStep(q: Query, log: seq<Row>, off: int, hour: int, n: nat, stack: string)
    ensures CountIn(q, log, off, hour, n + 1, stack)
            == CountIn(q, log, off, hour, n, stack) + Count(q, Shard(log, off, hour + n), stack)
  {
    if log != [] {
      CountStep(q, log[1..], off, hour, n, stack);
      var s := Shard(log, off, hour + n);
      var s' := Shard(log[1..], off, hour + n);
      if LocalHour(log[0].timestamp / NANO, off) == hour + n {
        assert s == [log[0]] + s' && s[1..] == s';
      } else {
        assert s == s';
      }
    }
  }

  lemma {:induction false} SweepIsCount(q: Query, files: Files, log: seq<Row>, off: int, hour: int, n: nat,
                                        stack: string)
    requires Sharded(files, log, off)
    ensures SweepCount(q, files, hour, n, stack) == CountIn(q, log, off, hour, n, stack)
  {
    if n == 0 {
      CountNone(q, log, off, hour, stack);
    } else {
      SweepIsCount(q, files, log, off, hour, n - 1, stack);
      CountStep(q, log, off, hour, n - 1, stack);
      assert FileRows(files, hour + n - 1) == Shard(log, off, hour + (n - 1));
    }
  }

  /** The sweep opens the file of the given local hour. */
  ghost predicate Opens(start: int, end: int, off: int, hour: int)
  {
    var h0 := LocalHour(SweepStart(start), off);
    h0 <= hour < h0 + SweepLength(start, end)
  }

  /** Every second of the window has its file opened. */
  ghost predicate Covers(start: int, end: int, off: int)
  {
    forall sec: nat :: start <= sec <= end ==> Opens(start, end, off, LocalHour(sec, off))
  }

  lemma {:induction false} HourOfSum(m: int, off: int)
    ensures LocalHour(m, off) == m / HOUR + off / HOUR + if m % HOUR + off % HOUR < HOUR then 0 else 1
  {
  }

  /** The sweep covers the window exactly when the end of the window and the offset of the
      time zone together stay below an hour. A whole-hour offset always does. */
  lemma {:induction false} CoversIff(start: int, end: int, off: int)
    requires start <= end && 0 <= end
    ensures Covers(start, end, off) <==> end % HOUR + off % HOUR < HOUR
  {
    var s0, h0 := SweepStart(start), LocalHour(SweepStart(start), off);
    Aligned(start, end);
    HourOfSum(s0, off);
    HourOfSum(end, off);
    if end % HOUR + off % HOUR < HOUR {
      forall sec: nat | start <= sec <= end
        ensures Opens(start, end, off, LocalHour(sec, off))
      {
        Monotone(s0, sec, off);
        Monotone(sec, end, off);
      }
    } else {
      assert !Opens(start, end, off, LocalHour(end, off));
    }
  }

  lemma {:induction false} Monotone(a: int, b: int, off: int)
    requires a <= b
    ensures LocalHour(a, off) <= LocalHour(b, off)
  {
  }

  /** The sweep starts on a whole hour, no later than the first row of the window can be. */
  lemma {:induction false} Aligned(start: int, end: int)
    requires start <= end && 0 <= end
    ensures var s0 := SweepStart(start);
            s0 % HOUR == 0 && s0 <= (if start > 0 then start else 0) <= end
            && SweepLength(start, end) == end / HOUR - s0 / HOUR + 1
  {
  }

  lemma {:induction false} AllIn(q: Query, log: seq<Row>, off: int, stack: string)
    requires 0 < q.end && (q.start <= q.end ==> Covers(q.start, q.end, off))
    ensures CountIn(q, log, off, LocalHour(SweepStart(q.start), off), SweepLength(q.start, q.end), stack) == Count(q,
            log, stack)
  {
    if log != [] {
      AllIn(q, log[1..], off, stack);
      var sec: nat := log[0].timestamp / NANO;
      if Passes(q, log[0]) {
        assert q.start <= sec <= q.end;
        assert Opens(q.start, q.end, off, LocalHour(sec, off));
      }
    }
  }

  /** With a time zone that the sweep covers, the printed total of every stack is its row
      count in the unsharded log. */
  lemma {:induction false} ShardedIsFlat(q: Query, files: Files, log: seq<Row>, off: int, stack: string)
    requires Sharded(files, log, off)
    requires 0 < q.end && (q.start <= q.end ==> q.end % HOUR + off % HOUR < HOUR)
    ensures Swept(q, files, off, stack) == Count(q, log, stack)
  {
    if q.start <= q.end { CoversIff(q.start, q.end, off); }
    SweepIsCount(q, files, log, off, LocalHour(SweepStart(q.start), off), SweepLength(q.start, q.end), stack);
    AllIn(q, log, off, stack);
  }

  lemma {:induction false} OneFile(r: Row, off: int, hour: int)
    requires hour == LocalHour(r.timestamp / NANO, off)
    ensures Sharded(map[hour := [r]], [r], off)
  {
    forall h: int
      ensures FileRows(map[hour := [r]], h) == Shard([r], off, h)
    {
      assert Shard([r][1..], off, h) == [];
    }
  }

  /** Otherwise a row at the very end of the window is missed: it is alone in the log and
      in the file of its hour, which the sweep does not open. */
  lemma {:induction false} ShardedCanMiss(q: Query, off: int, r: Row, files: Files)
    requires 0 < q.end && q.start <= q.end && q.end % HOUR + off % HOUR >= HOUR
    requires r == Row(q.end * NANO, q.pid, q.name, Text("main")) && files == map[LocalHour(q.end, off) := [r]]
    ensures Sharded(files, [r], off) && Count(q, [r], "main") == 1
    ensures Swept(q, files, off, "main") == 0
  {
    assert r.timestamp / NANO == q.end && Passes(q, r);
    assert [r][1..] == [];
    OneFile(r, off, LocalHour(q.end, off));
    Aligned(q.start, q.end);
    HourOfSum(SweepStart(q.start), off);
    HourOfSum(q.end, off);
    SweepIsCount(q, files, [r], off, LocalHour(SweepStart(q.start), off), SweepLength(q.start, q.end), "main");
  }
}
