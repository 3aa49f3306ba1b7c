/** The performance data that readperf.c walks: what it says, how it lies in memory, and one way to encode
    it. Every structure gives its own length, or the offset of what follows it. */
module PerfLayout {
  import opened CStrings
  import opened LittleEndian

  const NO_INSTANCES := 0xFFFF_FFFF

  // ---------- what the data say

  /** A counter: its title, and where its value lies in a counter block. */
  datatype Counter = Counter(title: nat, size: nat, offset: nat)

  /** An instance of an object: its name in 16-bit characters, and its counter block. */
  datatype Instance = Instance(name: seq<nat>, block: seq<byte>)

  datatype Body = Single(block: seq<byte>) | Many(instances: seq<Instance>)

  datatype PerfObject = PerfObject(title: nat, time: nat, freq: nat, counters: seq<Counter>, body: Body)

  // ---------- how they lie in memory

  predicate CounterAt(data: seq<byte>, at: nat, c: Counter) {
    && at + 40 <= |data|
    && Num(data, at + 4, 4) == c.title && Num(data, at + 32, 4) == c.size && Num(data, at + 36, 4) == c.offset
  }

  predicate CountersAt(data: seq<byte>, at: nat, cs: seq<Counter>)
    decreases |cs|
  {
    cs == [] || (CounterAt(data, at, cs[0]) && CountersAt(data, at + Num(data, at, 4), cs[1..]))
  }

  /** A counter block begins with its length. */
  predicate BlockAt(data: seq<byte>, at: nat, block: seq<byte>) {
    |block| >= 4 && SliceIs(data, at, block) && Num(data, at, 4) == |block|
  }

  /** A name ends with a zero character. */
  predicate WideAt(data: seq<byte>, at: nat, name: seq<nat>)
    decreases |name|
  {
    && at + 2 <= |data|
    && if name == [] then Num(data, at, 2) == 0
       else Num(data, at, 2) == name[0] != 0 && WideAt(data, at + 2, name[1..])
  }

  predicate InstanceAt(data: seq<byte>, at: nat, i: Instance) {
    && at + 24 <= |data|
    && WideAt(data, at + Num(data, at + 16, 4), i.name) && BlockAt(data, at + Num(data, at, 4), i.block)
  }

  predicate InstancesAt(data: seq<byte>, at: nat, ins: seq<Instance>)
    decreases |ins|
  {
    ins == [] ||
    (InstanceAt(data, at, ins[0]) && InstancesAt(data, at + Num(data, at, 4) + |ins[0].block|, ins[1..]))
  }

  predicate BodyAt(data: seq<byte>, at: nat, count: nat, body: Body) {
    match body
    case Single(block) => count == NO_INSTANCES && BlockAt(data, at, block)
    case Many(ins) => count == |ins| < 0x8000_0000 && InstancesAt(data, at, ins)
  }

  predicate ObjectAt(data: seq<byte>, at: nat, o: PerfObject) {
    && at + 64 <= |data|
    && Num(data, at + 12, 4) == o.title && Num(data, at + 48, 8) == o.time && Num(data, at + 56, 8) == o.freq
    && Num(data, at + 32, 4) == |o.counters|
    && CountersAt(data, at + Num(data, at + 8, 4), o.counters)
    && BodyAt(data, at + Num(data, at + 4, 4), Num(data, at + 40, 4), o.body)
  }

  predicate ObjectsAt(data: seq<byte>, at: nat, os: seq<PerfObject>)
    decreases |os|
  {
    os == [] || (ObjectAt(data, at, os[0]) && ObjectsAt(data, at + Num(data, at, 4), os[1..]))
  }

  /** The data hold these objects. */
  predicate BlobOf(data: seq<byte>, os: seq<PerfObject>) {
    32 <= |data| && Num(data, 28, 4) == |os| && ObjectsAt(data, Num(data, 24, 4), os)
  }

  // ---------- one way to encode them

  predicate Small(v: nat) {
    v < 0x1_0000_0000
  }

  predicate IsBlock(block: seq<byte>) {
    |block| >= 4 && Small(|block|) && block[..4] == Bytes(|block|, 4)
  }

  predicate CounterFits(c: Counter) {
    Small(c.title) && Small(c.size) && Small(c.offset)
  }

  predicate InstanceFits(i: Instance) {
    IsBlock(i.block) && Small(|EncodeInstance(i)|) && forall k | 0 <= k < |i.name| :: 0 < i.name[k] < 0x1_0000
  }

  predicate BodyFits(b: Body) {
    match b
    case Single(block) => IsBlock(block)
    case Many(ins) => |ins| < 0x8000_0000 && forall k | 0 <= k < |ins| :: InstanceFits(ins[k])
  }

  /** All numbers fit in the fields they are stored in. */
  predicate ObjectFits(o: PerfObject) {
    && Small(o.title) && o.time < Pow256(8) && o.freq < Pow256(8) && Small(|EncodeObject(o)|)
    && (forall k | 0 <= k < |o.counters| :: CounterFits(o.counters[k])) && BodyFits(o.body)
  }

  function EncodeCounter(c: Counter): (s: seq<byte>)
    ensures |s| == 40
  {
    Bytes(40, 4) + (Bytes(c.title, 4) + (Zeros(24) + (Bytes(c.size, 4) + Bytes(c.offset, 4))))
  }

  function EncodeCounters(cs: seq<Counter>): (s: seq<byte>)
    ensures |s| == 40 * |cs|
  {
    if cs == [] then [] else EncodeCounter(cs[0]) + EncodeCounters(cs[1..])
  }

  function EncodeName(name: seq<nat>): (s: seq<byte>)
    ensures |s| == 2 * |name| + 2
  {
    if name == [] then Bytes(0, 2) else Bytes(name[0], 2) + EncodeName(name[1..])
  }

  function EncodeInstance(i: Instance): (s: seq<byte>)
    ensures |s| == 26 + 2 * |i.name| + |i.block|
  {
    Bytes(26 + 2 * |i.name|, 4) + (Zeros(12) + (Bytes(24, 4) + (Zeros(4) + (EncodeName(i.name) + i.block))))
  }

  function EncodeInstances(ins: seq<Instance>): seq<byte> {
    if ins == [] then [] else EncodeInstance(ins[0]) + EncodeInstances(ins[1..])
  }

  function EncodeBody(b: Body): seq<byte> {
    match b case Single(block) => block case Many(ins) => EncodeInstances(ins)
  }

  function Count(b: Body): nat {
    match b case Single(_) => NO_INSTANCES case Many(ins) => |ins|
  }

  function ObjectLength(o: PerfObject): nat {
    64 + 40 * |o.counters| + |EncodeBody(o.body)|
  }

  function EncodeHead(o: PerfObject): (s: seq<byte>)
    ensures |s| == 32
  {
    Bytes(ObjectLength(o), 4) + (Bytes(64 + 40 * |o.counters|, 4) + (Bytes(64, 4) + (Bytes(o.title, 4) + Zeros(16))))
  }

  function EncodeCounts(o: PerfObject): (s: seq<byte>)
    ensures |s| == 32
  {
    Bytes(|o.counters|, 4) + (Zeros(4) + (Bytes(Count(o.body), 4) + (Zeros(4) + (Bytes(o.time, 8) + Bytes(o.freq, 8)))))
  }

  function EncodeObject(o: PerfObject): (s: seq<byte>)
    ensures |s| == ObjectLength(o)
  {
    EncodeHead(o) + (EncodeCounts(o) + (EncodeCounters(o.counters) + EncodeBody(o.body)))
  }

  function EncodeObjects(os: seq<PerfObject>): seq<byte> {
    if os == [] then [] else EncodeObject(os[0]) + EncodeObjects(os[1..])
  }

  function Encode(os: seq<PerfObject>): seq<byte> {
    Zeros(24) + (Bytes(32, 4) + (Bytes(|os|, 4) + EncodeObjects(os)))
  }

  // ---------- what is encoded lies in memory as described

  /** A number at the front of what lies at `at`, and the rest behind it. */
  lemma NumThen(data: seq<byte>, at: nat, v: nat, n: nat, rest: seq<byte>)
    requires SliceIs(data, at, Bytes(v, n) + rest) && v < Pow256(n)
    ensures at + n <= |data| && Num(data, at, n) == v && SliceIs(data, at + n, rest)
  {
    SliceParts(data, at, Bytes(v, n), rest);
    NumIs(data, at, v, n);
  }

  lemma CounterEncoded(data: seq<byte>, at: nat, c: Counter)
    requires SliceIs(data, at, EncodeCounter(c)) && CounterFits(c)
    ensures CounterAt(data, at, c) && Num(data, at, 4) == 40
  {
    hide Bytes, Num, LE;
    Pow256Values();
    var tail := Bytes(c.size, 4) + Bytes(c.offset, 4);
    NumThen(data, at, 40, 4, Bytes(c.title, 4) + (Zeros(24) + tail));
    NumThen(data, at + 4, c.title, 4, Zeros(24) + tail);
    SliceParts(data, at + 8, Zeros(24), tail);
    NumThen(data, at + 32, c.size, 4, Bytes(c.offset, 4));
    NumIs(data, at + 36, c.offset, 4);
  }

  lemma {:induction false} CountersEncoded(data: seq<byte>, at: nat, cs: seq<Counter>)
    requires SliceIs(data, at, EncodeCounters(cs)) && forall k | 0 <= k < |cs| :: CounterFits(cs[k])
    ensures CountersAt(data, at, cs)
    decreases |cs|
  {
    if cs != [] {
      SliceParts(data, at, EncodeCounter(cs[0]), EncodeCounters(cs[1..]));
      CounterEncoded(data, at, cs[0]);
      CountersEncoded(data, at + 40, cs[1..]);
    }
  }

  lemma {:induction false} NameEncoded(data: seq<byte>, at: nat, name: seq<nat>)
    requires SliceIs(data, at, EncodeName(name)) && forall k | 0 <= k < |name| :: 0 < name[k] < 0x1_0000
    ensures WideAt(data, at, name)
    decreases |name|
  {
    Pow256Values();
    if name == [] {
      NumIs(data, at, 0, 2);
    } else {
      NumThen(data, at, name[0], 2, EncodeName(name[1..]));
      NameEncoded(data, at + 2, name[1..]);
    }
  }

  lemma BlockEncoded(data: seq<byte>, at: nat, block: seq<byte>)
    requires SliceIs(data, at, block) && IsBlock(block)
    ensures BlockAt(data, at, block)
  {
    Pow256Values();
    assert block == Bytes(|block|, 4) + block[4..];
    NumThen(data, at, |block|, 4, block[4..]);
  }

  lemma InstanceEncoded(data: seq<byte>, at: nat, i: Instance)
    requires SliceIs(data, at, EncodeInstance(i)) && InstanceFits(i)
    ensures InstanceAt(data, at, i) && Num(data, at, 4) == 26 + 2 * |i.name|
  {
    hide Bytes, Num, LE, EncodeName, WideAt, BlockAt;
    Pow256Values();
    var n := 26 + 2 * |i.name|;
    var tail := EncodeName(i.name) + i.block;
    NumThen(data, at, n, 4, Zeros(12) + (Bytes(24, 4) + (Zeros(4) + tail)));
    SliceParts(data, at + 4, Zeros(12), Bytes(24, 4) + (Zeros(4) + tail));
    NumThen(data, at + 16, 24, 4, Zeros(4) + tail);
    SliceParts(data, at + 20, Zeros(4), tail);
    SliceParts(data, at + 24, EncodeName(i.name), i.block);
    NameEncoded(data, at + 24, i.name);
    BlockEncoded(data, at + n, i.block);
  }

  lemma {:induction false} InstancesEncoded(data: seq<byte>, at: nat, ins: seq<Instance>)
    requires SliceIs(data, at, EncodeInstances(ins)) && forall k | 0 <= k < |ins| :: InstanceFits(ins[k])
    ensures InstancesAt(data, at, ins)
    decreases |ins|
  {
    hide InstanceAt, InstanceFits, EncodeInstance, Num, SliceIs;
    if ins != [] {
      SliceParts(data, at, EncodeInstance(ins[0]), EncodeInstances(ins[1..]));
      InstanceEncoded(data, at, ins[0]);
      InstancesEncoded(data, at + |EncodeInstance(ins[0])|, ins[1..]);
    }
  }

  lemma BodyEncoded(data: seq<byte>, at: nat, b: Body)
    requires SliceIs(data, at, EncodeBody(b)) && BodyFits(b)
    ensures BodyAt(data, at, Count(b), b)
  {
    match b
    case Single(block) => BlockEncoded(data, at, block);
    case Many(ins) => InstancesEncoded(data, at, ins);
  }

  lemma HeadEncoded(data: seq<byte>, at: nat, o: PerfObject)
    requires SliceIs(data, at, EncodeHead(o)) && ObjectFits(o)
    ensures at + 32 <= |data| && Num(data, at, 4) == ObjectLength(o) && Num(data, at + 4, 4) == 64 + 40 * |o.counters|
    ensures Num(data, at + 8, 4) == 64 && Num(data, at + 12, 4) == o.title
  {
    hide Bytes, Num, LE;
    Pow256Values();
    var title := Bytes(o.title, 4) + Zeros(16);
    NumThen(data, at, ObjectLength(o), 4, Bytes(64 + 40 * |o.counters|, 4) + (Bytes(64, 4) + title));
    NumThen(data, at + 4, 64 + 40 * |o.counters|, 4, Bytes(64, 4) + title);
    NumThen(data, at + 8, 64, 4, title);
    NumThen(data, at + 12, o.title, 4, Zeros(16));
  }

  lemma CountsEncoded(data: seq<byte>, at: nat, o: PerfObject)
    requires SliceIs(data, at, EncodeCounts(o)) && ObjectFits(o)
    ensures at + 32 <= |data| && Num(data, at, 4) == |o.counters| && Num(data, at + 8, 4) == Count(o.body)
    ensures Num(data, at + 16, 8) == o.time && Num(data, at + 24, 8) == o.freq
  {
    hide Bytes, Num, LE;
    Pow256Values();
    var times := Bytes(o.time, 8) + Bytes(o.freq, 8);
    NumThen(data, at, |o.counters|, 4, Zeros(4) + (Bytes(Count(o.body), 4) + (Zeros(4) + times)));
    SliceParts(data, at + 4, Zeros(4), Bytes(Count(o.body), 4) + (Zeros(4) + times));
    NumThen(data, at + 8, Count(o.body), 4, Zeros(4) + times);
    SliceParts(data, at + 12, Zeros(4), times);
    NumThen(data, at + 16, o.time, 8, Bytes(o.freq, 8));
    NumIs(data, at + 24, o.freq, 8);
  }

  lemma ObjectEncoded(data: seq<byte>, at: nat, o: PerfObject)
    requires SliceIs(data, at, EncodeObject(o)) && ObjectFits(o)
    ensures ObjectAt(data, at, o) && Num(data, at, 4) == |EncodeObject(o)|
  {
    hide Num, EncodeHead, EncodeCounts, EncodeCounters, EncodeBody, CountersAt, BodyAt;
    var tail := EncodeCounters(o.counters) + EncodeBody(o.body);
    SliceParts(data, at, EncodeHead(o), EncodeCounts(o) + tail);
    SliceParts(data, at + 32, EncodeCounts(o), tail);
    SliceParts(data, at + 64, EncodeCounters(o.counters), EncodeBody(o.body));
    HeadEncoded(data, at, o);
    CountsEncoded(data, at + 32, o);
    CountersEncoded(data, at + 64, o.counters);
    BodyEncoded(data, at + 64 + 40 * |o.counters|, o.body);
  }

  lemma {:induction false} ObjectsEncoded(data: seq<byte>, at: nat, os: seq<PerfObject>)
    requires SliceIs(data, at, EncodeObjects(os)) && forall k | 0 <= k < |os| :: ObjectFits(os[k])
    ensures ObjectsAt(data, at, os)
    decreases |os|
  {
    hide ObjectAt, ObjectFits, EncodeObject, Num, SliceIs;
    if os != [] {
      SliceParts(data, at, EncodeObject(os[0]), EncodeObjects(os[1..]));
      ObjectEncoded(data, at, os[0]);
      ObjectsEncoded(data, at + |EncodeObject(os[0])|, os[1..]);
    }
  }

  /** What is encoded can be read back: the bytes hold the objects. */
  lemma EncodeDescribes(os: seq<PerfObject>)
    requires Small(|os|) && forall k | 0 <= k < |os| :: ObjectFits(os[k])
    ensures BlobOf(Encode(os), os)
  {
    hide Bytes, Num, LE, EncodeObjects, ObjectsAt;
    Pow256Values();
    var data := Encode(os);
    assert SliceIs(data, 0, data);
    SliceParts(data, 0, Zeros(24), Bytes(32, 4) + (Bytes(|os|, 4) + EncodeObjects(os)));
    NumThen(data, 24, 32, 4, Bytes(|os|, 4) + EncodeObjects(os));
    NumThen(data, 28, |os|, 4, EncodeObjects(os));
    ObjectsEncoded(data, 32, os);
  }

  // ---------- the data can be read in one way only

  lemma {:induction false} CountersOneWay(data: seq<byte>, at: nat, cs: seq<Counter>, cs': seq<Counter>)
    requires CountersAt(data, at, cs) && CountersAt(data, at, cs') && |cs| == |cs'|
    ensures cs == cs'
    decreases |cs|
  {
    hide Num;
    if cs != [] {
      CountersOneWay(data, at + Num(data, at, 4), cs[1..], cs'[1..]);
      assert cs == [cs[0]] + cs[1..] && cs' == [cs'[0]] + cs'[1..];
    }
  }

  lemma {:induction false} WideOneWay(data: seq<byte>, at: nat, name: seq<nat>, name': seq<nat>)
    requires WideAt(data, at, name) && WideAt(data, at, name')
    ensures name == name'
    decreases |name|
  {
    hide Num;
    if name != [] && name' != [] {
      WideOneWay(data, at + 2, name[1..], name'[1..]);
      assert name == [name[0]] + name[1..] && name' == [name'[0]] + name'[1..];
    }
  }

  lemma {:induction false} InstancesOneWay(data: seq<byte>, at: nat, ins: seq<Instance>, ins': seq<Instance>)
    requires InstancesAt(data, at, ins) && InstancesAt(data, at, ins') && |ins| == |ins'|
    ensures ins == ins'
    decreases |ins|
  {
    hide Num, WideAt;
    if ins != [] {
      WideOneWay(data, at + Num(data, at + 16, 4), ins[0].name, ins'[0].name);
      InstancesOneWay(data, at + Num(data, at, 4) + |ins[0].block|, ins[1..], ins'[1..]);
      assert ins == [ins[0]] + ins[1..] && ins' == [ins'[0]] + ins'[1..];
    }
  }

  lemma ObjectOneWay(data: seq<byte>, at: nat, o: PerfObject, o': PerfObject)
    requires ObjectAt(data, at, o) && ObjectAt(data, at, o')
    ensures o == o'
  {
    hide Num, CountersAt, InstancesAt;
    CountersOneWay(data, at + Num(data, at + 8, 4), o.counters, o'.counters);
    match (o.body, o'.body) {
      case (Many(ins), Many(ins')) => InstancesOneWay(data, at + Num(data, at + 4, 4), ins, ins');
      case _ =>
    }
  }

  lemma {:induction false} ObjectsOneWay(data: seq<byte>, at: nat, os: seq<PerfObject>, os': seq<PerfObject>)
    requires ObjectsAt(data, at, os) && ObjectsAt(data, at, os') && |os| == |os'|
    ensures os == os'
    decreases |os|
  {
    hide Num, CountersAt, BodyAt;
    if os != [] {
      ObjectOneWay(data, at, os[0], os'[0]);
      ObjectsOneWay(data, at + Num(data, at, 4), os[1..], os'[1..]);
      assert os == [os[0]] + os[1..] && os' == [os'[0]] + os'[1..];
    }
  }

  /** Bytes hold the objects of one list at most, so that different lists are encoded differently. */
  lemma BlobOneWay(data: seq<byte>, os: seq<PerfObject>, os': seq<PerfObject>)
    requires BlobOf(data, os) && BlobOf(data, os')
    ensures os == os'
  {
    ObjectsOneWay(data, Num(data, 24, 4), os, os');
  }

  // ---------- what is looked for

  /** The position of the first object with a title, or |os|. */
  function FirstObject(os: seq<PerfObject>, title: nat): (k: nat)
    ensures k <= |os| && (k < |os| ==> os[k].title == title)
    ensures forall i | 0 <= i < k :: os[i].title != title
  {
    if os == [] || os[0].title == title then 0 else 1 + FirstObject(os[1..], title)
  }

  /** Where the counters with a title are, in order. */
  function Positions(cs: seq<Counter>, title: nat): (p: seq<nat>)
    ensures forall i | 0 <= i < |p| :: p[i] < |cs| && cs[p[i]].title == title
  {
    if cs == [] then []
    else
      Positions(cs[..|cs| - 1], title) + (if cs[|cs| - 1].title == title then [|cs| - 1] else [])
  }

  /** Every counter with the title is in the list, once, and the list is in order. */
  lemma {:induction false} PositionsAreAll(cs: seq<Counter>, title: nat)
    ensures forall i, j | 0 <= i < j < |Positions(cs, title)| :: Positions(cs, title)[i] < Positions(cs, title)[j]
    ensures forall k | 0 <= k < |cs| && cs[k].title == title :: k in Positions(cs, title)
  {
    if cs != [] {
      PositionsAreAll(cs[..|cs| - 1], title);
    }
  }

  lemma {:induction false} PositionsGrow(cs: seq<Counter>, title: nat, b: nat)
    requires b <= |cs|
    ensures Positions(cs[..b], title) <= Positions(cs, title)
    decreases |cs|
  {
    if b < |cs| {
      PositionsGrow(cs[..|cs| - 1], title, b);
      assert cs[..|cs| - 1][..b] == cs[..b];
    } else {
      assert cs[..b] == cs;
    }
  }

  /** The counter a request stands for. An even number is the title of the first such counter; an odd one
      asks for the second counter with the even title below it. */
  function Requested(cs: seq<Counter>, request: nat): Option<Counter> {
    var p := Positions(cs, request - request % 2);
    if request % 2 < |p| then Some(cs[p[request % 2]]) else None
  }

  /** The value of a counter in a block: the number its bytes stand for. */
  function ValueOf(c: Counter, block: seq<byte>): nat
    requires c.offset + c.size <= |block|
  {
    Num(block, c.offset, c.size)
  }

  /** A counter lies inside a block and fits in a value of 64 bits. */
  predicate Inside(c: Counter, block: seq<byte>) {
    c.offset + c.size <= |block| && c.size <= 8
  }

  /** The bytes of a counter in a block are those of a number. */
  predicate Stores(c: Counter, block: seq<byte>, v: nat) {
    Inside(c, block) && v < Pow256(c.size) && block[c.offset..c.offset + c.size] == Bytes(v, c.size)
  }

  /** Then that number, all of it, is the value. */
  lemma ValueIs(c: Counter, block: seq<byte>, v: nat)
    requires Stores(c, block, v)
    ensures ValueOf(c, block) == v
  {
    NumIs(block, c.offset, v, c.size);
  }

  /** An even number asks for the first counter with that title, and the odd number above it for the second. */
  lemma RequestedIs(cs: seq<Counter>, title: nat, i: nat, k: nat)
    requires title % 2 == 0 && i < k <= |cs| && cs[i].title == title
    requires forall j | 0 <= j < k && j != i :: cs[j].title != title
    ensures Requested(cs, title) == Some(cs[i])
    ensures k < |cs| && cs[k].title == title ==> Requested(cs, title + 1) == Some(cs[k])
    ensures k == |cs| ==> Requested(cs, title + 1) == None
  {
    hide Positions;
    OnlyPosition(cs[..k], title, i);
    PositionsGrow(cs, title, k);
    if k < |cs| && cs[k].title == title {
      PositionsLast(cs, title, k);
      PositionsGrow(cs, title, k + 1);
    } else if k == |cs| {
      assert cs[..k] == cs;
    }
  }

  lemma PositionsLast(cs: seq<Counter>, title: nat, k: nat)
    requires k < |cs|
    ensures Positions(cs[..k + 1], title) == Positions(cs[..k], title) + (if cs[k].title == title then [k] else [])
  {
    assert cs[..k + 1][..k] == cs[..k];
  }

  lemma {:induction false} OnlyPosition(cs: seq<Counter>, title: nat, i: nat)
    requires i < |cs| && cs[i].title == title && forall j | 0 <= j < |cs| && j != i :: cs[j].title != title
    ensures Positions(cs, title) == [i]
  {
    if i == |cs| - 1 {
      NoPositions(cs[..i], title);
    } else {
      OnlyPosition(cs[..|cs| - 1], title, i);
    }
  }

  /** A number that is no title asks for nothing, and neither does the one above it. */
  lemma NoneRequested(cs: seq<Counter>, title: nat)
    requires title % 2 == 0 && forall j | 0 <= j < |cs| :: cs[j].title != title
    ensures Requested(cs, title) == None && Requested(cs, title + 1) == None
  {
    hide Positions;
    NoPositions(cs, title);
    assert (title + 1) % 2 == 1;
  }

  lemma {:induction false} NoPositions(cs: seq<Counter>, title: nat)
    requires forall j | 0 <= j < |cs| :: cs[j].title != title
    ensures Positions(cs, title) == []
  {
    if cs != [] {
      NoPositions(cs[..|cs| - 1], title);
    }
  }
}
