/** The walk through the performance data (readperf.c), by following lengths and offsets. */
module PerfReader {
  import opened CStrings
  import opened LittleEndian
  import opened PerfLayout

  // ---------- what is to be read

  /** One element of the result: the name of an instance (none for a block without instances, and at the
      end), and the values of the requested counters. */
  datatype PerfCounter = PerfCounter(instance: Option<seq<nat>>, value: seq<nat>)

  datatype CounterInfo = CounterInfo(size: nat, offset: nat)

  /** The list of requested counters ends with a zero. */
  function Requests(counters: seq<nat>): (r: seq<nat>)
    ensures r <= counters && 0 !in r
    ensures 0 in counters ==> |r| < |counters| && counters[|r|] == 0
  {
    if counters == [] || counters[0] == 0 then [] else [counters[0]] + Requests(counters[1..])
  }

  ghost predicate AllThere(cs: seq<Counter>, requests: seq<nat>) {
    forall i | 0 <= i < |requests| :: Requested(cs, requests[i]).Some?
  }

  /** Every requested counter that is there lies in the block. */
  ghost predicate AllInside(cs: seq<Counter>, requests: seq<nat>, block: seq<byte>) {
    forall i | 0 <= i < |requests| ::
      Requested(cs, requests[i]).Some? ==> Inside(Requested(cs, requests[i]).value, block)
  }

  /** The data are as they should be: the requested counters lie in the blocks. */
  ghost predicate Readable(o: PerfObject, requests: seq<nat>) {
    match o.body
    case Single(block) => AllInside(o.counters, requests, block)
    case Many(ins) => forall k | 0 <= k < |ins| :: AllInside(o.counters, requests, ins[k].block)
  }

  /** There is no block to read values from. */
  predicate NoBlocks(o: PerfObject) {
    o.body == Many([])
  }

  ghost function ValuesOf(cs: seq<Counter>, requests: seq<nat>, block: seq<byte>): seq<nat>
    requires AllThere(cs, requests) && AllInside(cs, requests, block)
  {
    seq(|requests|, i requires 0 <= i < |requests| => ValueOf(Requested(cs, requests[i]).value, block))
  }

  ghost function RowOf(cs: seq<Counter>, requests: seq<nat>, i: Instance): PerfCounter
    requires AllThere(cs, requests) && AllInside(cs, requests, i.block)
  {
    PerfCounter(Some(i.name), ValuesOf(cs, requests, i.block))
  }

  /** The instances in order, or the one block. */
  ghost predicate IsResult(r: seq<PerfCounter>, o: PerfObject, requests: seq<nat>)
    requires Readable(o, requests) && (AllThere(o.counters, requests) || NoBlocks(o))
  {
    match o.body
    case Single(block) => r == [PerfCounter(None, ValuesOf(o.counters, requests, block))]
    case Many(ins) =>
      && |r| == |ins| + 1 && r[|ins|].instance == None
      && forall k | 0 <= k < |ins| :: r[k] == RowOf(o.counters, requests, ins[k])
  }

  /** What the walk over an object gives: its rows, or nothing that can be relied on, when it copies with a
      size and an offset that were never set. */
  datatype Reading = NotThere | Rows(rows: array<PerfCounter>) | ReadsUnset

  /** The rows are right whenever every requested counter is there or there is nothing to read; in every other
      case, and in no other, a slot that was never set is read. */
  ghost predicate IsReading(r: Reading, o: PerfObject, requests: seq<nat>)
    requires Readable(o, requests)
    reads if r.Rows? then {r.rows} else {}
  {
    && r != NotThere
    && (r.Rows? <==> AllThere(o.counters, requests) || NoBlocks(o))
    && (r.Rows? ==> IsResult(r.rows[..], o, requests))
  }

  /** Whatever number the bytes of a requested counter are those of is its value, in its place. */
  ghost predicate ValuesAre(value: seq<nat>, cs: seq<Counter>, requests: seq<nat>, block: seq<byte>) {
    && |value| == |requests|
    && forall j, v: nat | 0 <= j < |requests| && Requested(cs, requests[j]).Some?
                          && Stores(Requested(cs, requests[j]).value, block, v) :: value[j] == v
  }

  /** One element for each instance, with its name and its values, and one to end them; or one for the block. */
  ghost predicate RowsHold(rows: seq<PerfCounter>, o: PerfObject, requests: seq<nat>) {
    match o.body
    case Single(block) =>
      |rows| == 1 && rows[0].instance == None && ValuesAre(rows[0].value, o.counters, requests, block)
    case Many(ins) =>
      && |rows| == |ins| + 1 && rows[|ins|].instance == None
      && forall k | 0 <= k < |ins| ::
           rows[k].instance == Some(ins[k].name) && ValuesAre(rows[k].value, o.counters, requests, ins[k].block)
  }

  lemma ValuesOfAre(cs: seq<Counter>, requests: seq<nat>, block: seq<byte>)
    requires AllThere(cs, requests) && AllInside(cs, requests, block)
    ensures ValuesAre(ValuesOf(cs, requests, block), cs, requests, block)
  {
    hide Requested, ValueOf, Stores;
    forall j, v: nat | 0 <= j < |requests| && Requested(cs, requests[j]).Some?
                       && Stores(Requested(cs, requests[j]).value, block, v)
      ensures ValuesOf(cs, requests, block)[j] == v
    {
      ValueIs(Requested(cs, requests[j]).value, block, v);
    }
  }

  lemma ResultHolds(rows: seq<PerfCounter>, o: PerfObject, requests: seq<nat>)
    requires Readable(o, requests) && (AllThere(o.counters, requests) || NoBlocks(o)) && IsResult(rows, o, requests)
    ensures RowsHold(rows, o, requests)
  {
    hide ValuesAre, ValuesOf, AllInside, AllThere;
    match o.body {
      case Single(block) => ValuesOfAre(o.counters, requests, block);
      case Many(ins) =>
        forall k | 0 <= k < |ins| ensures ValuesAre(rows[k].value, o.counters, requests, ins[k].block) {
          ValuesOfAre(o.counters, requests, ins[k].block);
        }
    }
  }

  // ---------- the steps

  function FirstObjectPtr(data: seq<byte>): nat
    requires 28 <= |data|
  {
    Num(data, 24, 4)
  }

  function NextObject(data: seq<byte>, act: nat): nat
    requires act + 4 <= |data|
  {
    act + Num(data, act, 4)
  }

  function FirstCounter(data: seq<byte>, op: nat): nat
    requires op + 12 <= |data|
  {
    op + Num(data, op + 8, 4)
  }

  function NextCounter(data: seq<byte>, cd: nat): nat
    requires cd + 4 <= |data|
  {
    cd + Num(data, cd, 4)
  }

  function GetCounterBlock(data: seq<byte>, ip: nat): nat
    requires ip + 4 <= |data|
  {
    ip + Num(data, ip, 4)
  }

  function FirstInstance(data: seq<byte>, op: nat): nat
    requires op + 8 <= |data|
  {
    op + Num(data, op + 4, 4)
  }

  function NextInstance(data: seq<byte>, ip: nat): nat
    requires ip + 4 <= |data| && GetCounterBlock(data, ip) + 4 <= |data|
  {
    ip + Num(data, ip, 4) + Num(data, GetCounterBlock(data, ip), 4)
  }

  // ---------- the code

  method GetObject(data: seq<byte>, title: nat, ghost os: seq<PerfObject>) returns (op: Option<nat>)
    requires BlobOf(data, os)
    ensures op == None <==> FirstObject(os, title) == |os|
    ensures op.Some? ==> ObjectAt(data, op.value, os[FirstObject(os, title)])
  {
    hide LE, Num, CountersAt, BodyAt;
    var at: nat := FirstObjectPtr(data);
    var n := Num(data, 28, 4);
    var a := 0;
    while a < n
      invariant a <= n == |os| && ObjectsAt(data, at, os[a..])
      invariant FirstObject(os, title) == a + FirstObject(os[a..], title)
    {
      assert os[a..][0] == os[a] && os[a..][1..] == os[a + 1..];
      if Num(data, at + 12, 4) == title { return Some(at); }
      at, a := NextObject(data, at), a + 1;
    }
    op := None;
  }

  lemma PositionsNext(cs: seq<Counter>, title: nat, b: nat)
    requires b < |cs|
    ensures Positions(cs[..b + 1], title) == Positions(cs[..b], title) + (if cs[b].title == title then [b] else [])
    ensures Positions(cs[..b + 1], title) <= Positions(cs, title)
  {
    PositionsGrow(cs, title, b + 1);
    assert cs[..b + 1][..b] == cs[..b];
  }

  lemma FoundHere(cs: seq<Counter>, counter: nat, b: nat)
    requires b < |cs| && cs[b].title == counter - counter % 2
    requires |Positions(cs[..b], counter - counter % 2)| == counter % 2
    ensures Requested(cs, counter) == Some(cs[b])
  {
    PositionsNext(cs, counter - counter % 2, b);
  }

  lemma NotRequested(cs: seq<Counter>, counter: nat)
    ensures Requested(cs, counter) == None <==> |Positions(cs, counter - counter % 2)| <= counter % 2
  {
  }

  lemma NoneBefore(cs: seq<Counter>, title: nat)
    ensures Positions(cs[..0], title) == []
  {
  }

  /** Finds the counter a request stands for. */
  method GetCounterOffset(data: seq<byte>, op: nat, counter: nat, ghost cs: seq<Counter>)
    returns (found: bool, ci: CounterInfo)
    requires op + 64 <= |data| && Num(data, op + 32, 4) == |cs| && CountersAt(data, FirstCounter(data, op), cs)
    ensures found <==> Requested(cs, counter).Some?
    ensures found ==> ci == InfoOf(Requested(cs, counter).value)
  {
    hide LE, Num, SliceIs, Positions, Requested;
    var base := counter % 2;
    var title := counter - base;
    var cd := FirstCounter(data, op);
    var n := Num(data, op + 32, 4);
    var b := 0;
    assert cs[0..] == cs;
    NoneBefore(cs, title);
    while b < n
      invariant b <= n == |cs| && CountersAt(data, cd, cs[b..]) && 0 <= base <= counter % 2
      invariant |Positions(cs[..b], title)| == counter % 2 - base
    {
      assert cs[b..][0] == cs[b] && cs[b..][1..] == cs[b + 1..];
      PositionsNext(cs, title, b);
      assert cs[b].title == Num(data, cd + 4, 4);
      if Num(data, cd + 4, 4) == title {
        if base != 0 {
          base := 0;
        } else {
          FoundHere(cs, counter, b);
          return true, CounterInfo(Num(data, cd + 32, 4), Num(data, cd + 36, 4));
        }
      }
      cd, b := NextCounter(data, cd), b + 1;
    }
    assert cs[..b] == cs;
    NotRequested(cs, counter);
    found, ci := false, CounterInfo(0, 0);
  }

  function InfoOf(c: Counter): CounterInfo {
    CounterInfo(c.size, c.offset)
  }

  /** Copies the bytes of a counter into a zeroed 64-bit value. */
  method ReadValue(data: seq<byte>, at: nat, ci: CounterInfo, ghost c: Counter, ghost block: seq<byte>)
    returns (v: nat)
    requires BlockAt(data, at, block) && Inside(c, block) && ci == InfoOf(c)
    ensures v == ValueOf(c, block)
  {
    hide LE;
    var word := new byte[8](_ => 0);
    var i := 0;
    while i < ci.size
      invariant i <= ci.size && word[..] == block[c.offset..c.offset + i] + Zeros(8 - i)
    {
      assert data[at + ci.offset + i] == data[at..at + |block|][ci.offset + i];
      word[i] := data[at + ci.offset + i];
      i := i + 1;
    }
    ZeroExtended(block[c.offset..c.offset + i], 8 - i);
    v := LE(word[..]);
  }

  /** The slots of the counters that are there have been set, and no others. */
  ghost predicate Filled(ci: seq<Option<CounterInfo>>, cs: seq<Counter>, requests: seq<nat>) {
    && |ci| == |requests|
    && forall i | 0 <= i < |ci| ::
         ci[i] == if Requested(cs, requests[i]).Some? then Some(InfoOf(Requested(cs, requests[i]).value)) else None
  }

  ghost predicate ValuesTo(value: seq<nat>, cs: seq<Counter>, requests: seq<nat>, block: seq<byte>, i: nat)
    requires AllInside(cs, requests, block)
  {
    && |value| == i <= |requests|
    && forall k | 0 <= k < i ::
         Requested(cs, requests[k]).Some? && value[k] == ValueOf(Requested(cs, requests[k]).value, block)
  }

  /** The values of one block, or None when a slot that was not set is met. */
  method ReadValues(data: seq<byte>, at: nat, ci: array<Option<CounterInfo>>, ghost cs: seq<Counter>,
                    ghost requests: seq<nat>, ghost block: seq<byte>)
    returns (value: Option<seq<nat>>)
    requires BlockAt(data, at, block) && AllInside(cs, requests, block) && Filled(ci[..], cs, requests)
    ensures value.Some? <==> AllThere(cs, requests)
    ensures value.Some? ==> value.value == ValuesOf(cs, requests, block)
  {
    hide Num, LE, SliceIs, Requested, ValueOf, Inside, InfoOf;
    var values := [];
    var i := 0;
    while i < ci.Length
      invariant i <= ci.Length && ValuesTo(values, cs, requests, block, i)
    {
      assert ci[i] == ci[..][i];
      if ci[i] == None { return None; }
      var v := ReadValue(data, at, ci[i].value, Requested(cs, requests[i]).value, block);
      values, i := values + [v], i + 1;
    }
    value := Some(values);
  }

  /** Copies a name up to its zero character. */
  method DupWide(data: seq<byte>, at: nat, ghost name: seq<nat>) returns (b: seq<nat>)
    requires WideAt(data, at, name)
    ensures b == name
  {
    b := [];
    var p := at;
    while Num(data, p, 2) != 0
      invariant |b| <= |name| && b == name[..|b|] && p == at + 2 * |b| && WideAt(data, p, name[|b|..])
      decreases |name| - |b|
    {
      assert name[|b|..][1..] == name[|b| + 1..];
      b, p := b + [Num(data, p, 2)], p + 2;
    }
  }

  /** Looks up every requested counter. The slots are not set to begin with, and the slot of a counter that
      is not there stays so: that the lookup failed is not looked at. */
  method FillCounters(data: seq<byte>, op: nat, requests: seq<nat>, ghost cs: seq<Counter>)
    returns (ci: array<Option<CounterInfo>>)
    requires op + 64 <= |data| && Num(data, op + 32, 4) == |cs| && CountersAt(data, FirstCounter(data, op), cs)
    ensures fresh(ci) && Filled(ci[..], cs, requests)
  {
    hide Num, LE, Requested, CountersAt, InfoOf;
    ci := new Option<CounterInfo>[|requests|](_ => None);
    var i := 0;
    while i < |requests|
      invariant i <= |requests| && Filled(ci[..i], cs, requests[..i])
      invariant forall k | i <= k < |requests| :: ci[k] == None
    {
      var found, info := GetCounterOffset(data, op, requests[i], cs);
      if found { ci[i] := Some(info); }
      assert ci[..i + 1] == ci[..i] + [ci[i]];
      i := i + 1;
    }
    assert ci[..i] == ci[..] && requests[..i] == requests;
  }

  method CountRequests(counters: seq<nat>) returns (n: nat)
    requires 0 in counters
    ensures n < |counters| && counters[..n] == Requests(counters)
  {
    n := 0;
    while counters[n] != 0
      invariant n < |counters| && 0 !in counters[..n]
      decreases |counters| - n
    {
      assert 0 in counters[n..] by { assert counters == counters[..n] + counters[n..]; }
      n := n + 1;
    }
    RequestsEnd(counters, n);
  }

  lemma {:induction false} RequestsEnd(counters: seq<nat>, n: nat)
    requires n < |counters| && counters[n] == 0 && 0 !in counters[..n]
    ensures Requests(counters) == counters[..n]
  {
    if n > 0 {
      assert counters[..n][1..] == counters[1..][..n - 1] && counters[0] in counters[..n];
      RequestsEnd(counters[1..], n - 1);
    }
  }

  /** The block of an object without instances. */
  method ReadSingle(data: seq<byte>, op: nat, ci: array<Option<CounterInfo>>, ghost o: PerfObject,
                    ghost requests: seq<nat>)
    returns (r: Reading)
    requires ObjectAt(data, op, o) && o.body.Single? && Readable(o, requests) && Filled(ci[..], o.counters, requests)
    ensures IsReading(r, o, requests) && (r.Rows? ==> fresh(r.rows))
  {
    hide Num, LE, SliceIs, CountersAt, ValueOf, ValuesOf, AllThere, AllInside;
    var value := ReadValues(data, FirstInstance(data, op), ci, o.counters, requests, o.body.block);
    if value == None { return ReadsUnset; }
    var results := new PerfCounter[1];
    results[0] := PerfCounter(None, value.value);
    assert results[..] == [PerfCounter(None, value.value)];
    r := Rows(results);
  }

  /** The walk over the instances. */
  method ReadInstances(data: seq<byte>, op: nat, ci: array<Option<CounterInfo>>, ghost o: PerfObject,
                       ghost requests: seq<nat>)
    returns (r: Reading)
    requires ObjectAt(data, op, o) && o.body.Many? && Readable(o, requests) && Filled(ci[..], o.counters, requests)
    ensures IsReading(r, o, requests) && (r.Rows? ==> fresh(r.rows))
  {
    hide Num, LE, CountersAt, ValueOf, ValuesOf, WideAt, AllInside, Filled, AllThere;
    ghost var ins := o.body.instances;
    var n := Num(data, op + 40, 4);
    var results := new PerfCounter[1 + n];
    var ip: nat := FirstInstance(data, op);
    var b := 0;
    assert ins[0..] == ins;
    while b < n
      invariant b <= n == |ins| && InstancesAt(data, ip, ins[b..])
      invariant b > 0 ==> AllThere(o.counters, requests)
      invariant forall k | 0 <= k < b :: results[k] == RowOf(o.counters, requests, ins[k])
    {
      ghost var i := ins[b];
      assert ins[b..][0] == i && ins[b..][1..] == ins[b + 1..];
      var name := DupWide(data, ip + Num(data, ip + 16, 4), i.name);
      var value := ReadValues(data, GetCounterBlock(data, ip), ci, o.counters, requests, i.block);
      if value == None { return ReadsUnset; }
      results[b] := PerfCounter(Some(name), value.value);
      ip, b := NextInstance(data, ip), b + 1;
    }
    results[b] := PerfCounter(None, []);
    r := Rows(results);
  }

  /** Reads the requested counters of an object: nothing when the data do not hold the object. */
  method ReadPerfCounters(data: seq<byte>, title: nat, counters: seq<nat>, ghost os: seq<PerfObject>)
    returns (r: Reading, time: nat, freq: nat)
    requires BlobOf(data, os) && 0 in counters
    requires FirstObject(os, title) < |os| ==> Readable(os[FirstObject(os, title)], Requests(counters))
    ensures r == NotThere <==> FirstObject(os, title) == |os|
    ensures FirstObject(os, title) < |os| ==>
              var o := os[FirstObject(os, title)];
              && IsReading(r, o, Requests(counters)) && time == o.time && freq == o.freq
              && (r.Rows? ==> RowsHold(r.rows[..], o, Requests(counters)))
  {
    hide Num, FirstObject, AllInside, IsResult, CountersAt, Readable, Filled, RowsHold, AllThere;
    var ncounters := CountRequests(counters);
    var requests := counters[..ncounters];
    var op := GetObject(data, title, os);
    if op == None { return NotThere, 0, 0; }
    ghost var o := os[FirstObject(os, title)];
    time, freq := Num(data, op.value + 48, 8), Num(data, op.value + 56, 8);
    var ci := FillCounters(data, op.value, requests, o.counters);
    if Num(data, op.value + 40, 4) == NO_INSTANCES {
      r := ReadSingle(data, op.value, ci, o, requests);
    } else {
      r := ReadInstances(data, op.value, ci, o, requests);
    }
    if r.Rows? { ResultHolds(r.rows[..], o, requests); }
  }

  /** Objects that were encoded are read back as they were. */
  method ReadEncoded(os: seq<PerfObject>, title: nat, counters: seq<nat>)
    returns (r: Reading, time: nat, freq: nat)
    requires Small(|os|) && (forall k | 0 <= k < |os| :: ObjectFits(os[k])) && 0 in counters
    requires FirstObject(os, title) < |os| ==> Readable(os[FirstObject(os, title)], Requests(counters))
    ensures r == NotThere <==> FirstObject(os, title) == |os|
    ensures FirstObject(os, title) < |os| ==>
              var o := os[FirstObject(os, title)];
              && IsReading(r, o, Requests(counters)) && time == o.time && freq == o.freq
              && (r.Rows? ==> RowsHold(r.rows[..], o, Requests(counters)))
  {
    EncodeDescribes(os);
    r, time, freq := ReadPerfCounters(Encode(os), title, counters, os);
  }

  /** An object with one counter and one block, asked for another counter too: the walk copies with a size and
      an offset that were never set. */
  method ReadMissing() returns (r: Reading)
    ensures r == ReadsUnset
  {
    hide ObjectFits, Readable, AllThere, IsResult, FirstObject, Requests, Bytes;
    var block := Bytes(8, 4) + Bytes(1, 4);
    var o := PerfObject(238, 0, 0, [Counter(6, 4, 4)], Single(block));
    MissingFits(o, block);
    MissingRequest(o, block);
    MissingAsked(o);
    var time, freq;
    r, time, freq := ReadEncoded([o], 238, [6, 142, 0]);
  }

  lemma MissingAsked(o: PerfObject)
    requires o.title == 238
    ensures FirstObject([o], 238) == 0 && Requests([6, 142, 0]) == [6, 142]
  {
    assert [6, 142, 0][1..] == [142, 0] && [142, 0][1..] == [0];
    assert Requests([0]) == [] && Requests([142, 0]) == [142];
  }

  lemma MissingFits(o: PerfObject, block: seq<byte>)
    requires o == PerfObject(238, 0, 0, [Counter(6, 4, 4)], Single(block)) && block == Bytes(8, 4) + Bytes(1, 4)
    ensures ObjectFits(o)
  {
    hide Bytes, Positions, EncodeHead, EncodeCounts, EncodeCounters;
    Pow256Values();
    assert block[..4] == Bytes(8, 4);
  }

  lemma MissingRequest(o: PerfObject, block: seq<byte>)
    requires o == PerfObject(238, 0, 0, [Counter(6, 4, 4)], Single(block)) && |block| == 8
    ensures Readable(o, [6, 142]) && !AllThere(o.counters, [6, 142])
  {
    hide Requested, Bytes;
    OneCounter(o.counters, 6);
    OneCounter(o.counters, 142);
    assert [6, 142][1] == 142;
  }

  lemma OneCounter(cs: seq<Counter>, title: nat)
    requires |cs| == 1 && title % 2 == 0
    ensures Requested(cs, title) == if cs[0].title == title then Some(cs[0]) else None
  {
    assert cs[..0] == [];
    assert Positions(cs, title) == if cs[0].title == title then [0] else [];
  }
}
