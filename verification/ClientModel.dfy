/** What a client may download in one contact, and when its byte counts are conserved. */
module ClientModel {
  import opened Collections

  type Sizes = map<string, nat>

  /** What the network answers at one tick: the segments an edge lists, and those it will hand over. */
  datatype Network = Network(listed: seq<string>, served: set<string>)

  /** The segments received, and whether the client met one its video does not have. */
  datatype Download = Download(got: seq<string>, panicked: bool)

  /** The time of a tick in contact, and the link rate assumed since the tick before. */
  datatype Sample = Sample(time: int, rate: nat)

  /** A finished contact and the bytes it yielded. */
  datatype Contact = Contact(samples: seq<Sample>, bytes: nat)

  function SizeIn(sizes: Sizes): string -> int {
    id => if id in sizes then sizes[id] else 0
  }

  function TotalSize(sizes: Sizes, ids: seq<string>): nat {
    if ids == [] then 0 else (if ids[0] in sizes then sizes[ids[0]] else 0) + TotalSize(sizes, ids[1..])
  }

  /** The download loop: segments in order while they are smaller than what is left. */
  function Pretend(sizes: Sizes, segs: seq<string>, left: int, served: set<string>): (d: Download)
    ensures d.got != [] ==> TotalSize(sizes, d.got) < left
    ensures forall id :: id in d.got ==> id in segs && id in sizes
    ensures Distinct(segs) ==> Distinct(d.got)
  {
    if segs == [] then Download([], false)
    else if segs[0] !in sizes then Download([], true)
    else if sizes[segs[0]] >= left then Download([], false)
    else if segs[0] in served then
      var rest := Pretend(sizes, segs[1..], left - sizes[segs[0]], served);
      Download([segs[0]] + rest.got, rest.panicked)
    else Pretend(sizes, segs[1..], left, served)
  }

  /** The download with what was received before it. */
  function After(got: seq<string>, d: Download): Download {
    Download(got + d.got, d.panicked)
  }

  /** One turn of the download loop. */
  lemma PretendAt(sizes: Sizes, segs: seq<string>, i: nat, left: int, served: set<string>, got: seq<string>)
    requires i < |segs|
    ensures After(got, Pretend(sizes, segs[i..], left, served))
            == (if segs[i] !in sizes then Download(got, true)
                else if sizes[segs[i]] >= left then Download(got, false)
                else if segs[i] in served then
                  After(got + [segs[i]], Pretend(sizes, segs[i + 1..], left - sizes[segs[i]], served))
                else After(got, Pretend(sizes, segs[i + 1..], left, served)))
  {
    assert segs[i..][1..] == segs[i + 1..];
    if segs[i] in sizes && sizes[segs[i]] < left && segs[i] in served {
      var rest := Pretend(sizes, segs[i + 1..], left - sizes[segs[i]], served);
      assert got + ([segs[i]] + rest.got) == got + [segs[i]] + rest.got;
    }
  }

  /** The listed segments the client has not buffered yet. */
  function Unbuffered(buffered: set<string>, listed: seq<string>): (ids: seq<string>)
    ensures forall id :: id in ids <==> id in listed && id !in buffered
    ensures Distinct(listed) ==> Distinct(ids)
  {
    if listed == [] then []
    else if listed[0] in buffered then Unbuffered(buffered, listed[1..])
    else [listed[0]] + Unbuffered(buffered, listed[1..])
  }

  // ----- byte conservation -----

  ghost function SetOf(ids: seq<string>): set<string> {
    set id | id in ids
  }

  lemma SetOfSnoc(ids: seq<string>, id: string)
    ensures SetOf(ids + [id]) == SetOf(ids) + {id}
  {
  }

  lemma {:induction false} TotalSizeSnoc(sizes: Sizes, ids: seq<string>, id: string)
    ensures TotalSize(sizes, ids + [id]) == TotalSize(sizes, ids) + (if id in sizes then sizes[id] else 0)
  {
    if ids == [] {
      assert ids + [id] == [id] && [id][1..] == [];
    } else {
      assert (ids + [id])[1..] == ids[1..] + [id];
      TotalSizeSnoc(sizes, ids[1..], id);
    }
  }

  /** Bytes of the entries that repeat an id of the set or an earlier entry. */
  ghost function RepeatedSize(sizes: Sizes, have: set<string>, ids: seq<string>): nat
    decreases |ids|
  {
    if ids == [] then 0
    else
      (if ids[0] in have && ids[0] in sizes then sizes[ids[0]] else 0)
      + RepeatedSize(sizes, have + {ids[0]}, ids[1..])
  }

  /** Received bytes exceed the growth of the buffer by exactly the bytes received again. */
  lemma {:induction false} BufferGrowth(sizes: Sizes, have: set<string>, ids: seq<string>)
    ensures SetSum(have + SetOf(ids), SizeIn(sizes)) + RepeatedSize(sizes, have, ids)
            == SetSum(have, SizeIn(sizes)) + TotalSize(sizes, ids)
    decreases |ids|
  {
    if ids == [] {
      assert have + SetOf(ids) == have;
    } else {
      BufferGrowth(sizes, have + {ids[0]}, ids[1..]);
      assert have + SetOf(ids) == have + {ids[0]} + SetOf(ids[1..]) by {
        assert ids == [ids[0]] + ids[1..];
      }
      if ids[0] in have {
        assert have + {ids[0]} == have;
      } else {
        SetSumAdd(have, SizeIn(sizes), ids[0]);
      }
    }
  }

  lemma {:induction false} DistinctRepeatsNothing(sizes: Sizes, have: set<string>, ids: seq<string>)
    requires Distinct(ids) && forall id :: id in ids ==> id !in have
    ensures RepeatedSize(sizes, have, ids) == 0
    decreases |ids|
  {
    if ids != [] {
      assert ids[0] in ids;
      assert forall k :: 0 <= k < |ids| - 1 ==> ids[1..][k] == ids[k + 1] && ids[0] != ids[k + 1];
      DistinctRepeatsNothing(sizes, have + {ids[0]}, ids[1..]);
    }
  }

  lemma {:induction false} RepeatsLess(sizes: Sizes, segs: seq<string>, left: int, served: set<string>,
      have: set<string>, more: set<string>)
    requires have <= more
    ensures RepeatedSize(sizes, have, Pretend(sizes, segs, left, served).got) <= RepeatedSize(sizes, more, segs)
    decreases |segs|
  {
    if segs != [] && segs[0] in sizes && sizes[segs[0]] < left {
      if segs[0] in served {
        RepeatsLess(sizes, segs[1..], left - sizes[segs[0]], served, have + {segs[0]}, more + {segs[0]});
        var rest := Pretend(sizes, segs[1..], left - sizes[segs[0]], served).got;
        assert ([segs[0]] + rest)[1..] == rest;
      } else {
        RepeatsLess(sizes, segs[1..], left, served, have, more + {segs[0]});
      }
    }
  }

  lemma {:induction false} PretendAll(sizes: Sizes, segs: seq<string>, left: int, served: set<string>)
    requires forall id :: id in segs ==> id in sizes && id in served
    requires left > TotalSize(sizes, segs)
    ensures Pretend(sizes, segs, left, served).got == segs
  {
    if segs != [] {
      assert segs[0] in segs;
      PretendAll(sizes, segs[1..], left - sizes[segs[0]], served);
      assert segs == [segs[0]] + segs[1..];
    }
  }

  /** One contact keeps received bytes and buffered bytes equal. */
  ghost predicate Conserves(sizes: Sizes, have: set<string>, ids: seq<string>) {
    SetSum(have + SetOf(ids), SizeIn(sizes)) == SetSum(have, SizeIn(sizes)) + TotalSize(sizes, ids)
  }

  /**
    Conservation is exact: whatever the budget and whatever the edge hands
    over, a contact counts every byte once, iff the list the client works
    through repeats no non-empty segment.
   */
  lemma ConservedExactly(sizes: Sizes, have: set<string>, segs: seq<string>)
    requires forall id :: id in segs ==> id in sizes
    ensures (forall left: int, served: set<string> :: Conserves(sizes, have, Pretend(sizes, segs, left, served).got))
            <==> RepeatedSize(sizes, have, segs) == 0
  {
    forall left: int, served: set<string>
      ensures RepeatedSize(sizes, have, segs) == 0 ==> Conserves(sizes, have, Pretend(sizes, segs, left, served).got)
    {
      RepeatsLess(sizes, segs, left, served, have, have);
      BufferGrowth(sizes, have, Pretend(sizes, segs, left, served).got);
    }
    var left, served := TotalSize(sizes, segs) + 1, SetOf(segs);
    PretendAll(sizes, segs, left, served);
    BufferGrowth(sizes, have, segs);
    assert Conserves(sizes, have, Pretend(sizes, segs, left, served).got) ==> RepeatedSize(sizes, have, segs) == 0;
  }

  // ----- contacts -----

  /** Bits carried over the samples: each rate times the time since the sample before. */
  function Area(samples: seq<Sample>): int {
    var n := |samples| - 1;
    if n < 1 then 0 else Area(samples[..n]) + samples[n].rate * (samples[n].time - samples[n - 1].time)
  }

  /** A contact's samples: in order of time, no rate above the fastest link. */
  ghost predicate Chronological(maxBandwidth: nat, samples: seq<Sample>) {
    var n := |samples| - 1;
    && n >= 0
    && samples[n].rate <= maxBandwidth
    && (n > 0 ==> samples[n - 1].time <= samples[n].time && Chronological(maxBandwidth, samples[..n]))
  }

  function Begin(samples: seq<Sample>): int {
    if samples == [] then 0 else samples[0].time
  }

  function End(samples: seq<Sample>): int {
    if samples == [] then 0 else samples[|samples| - 1].time
  }

  lemma Distribute(k: nat, a: int, b: int)
    ensures k * a + k * b == k * (a + b)
  {
  }

  lemma Monotone(j: nat, k: nat, a: int, b: int)
    requires j <= k && 0 <= a <= b
    ensures j * a <= k * b
  {
    Distribute(k, a, b - a);
    Distribute(a, j, k - j);
  }

  lemma SampleSnoc(maxBandwidth: nat, samples: seq<Sample>, s: Sample)
    requires Chronological(maxBandwidth, samples)
    requires s.rate <= maxBandwidth && End(samples) <= s.time
    ensures Chronological(maxBandwidth, samples + [s])
    ensures Area(samples + [s]) == Area(samples) + s.rate * (s.time - End(samples))
    ensures Begin(samples + [s]) == Begin(samples) && End(samples + [s]) == s.time
  {
    assert (samples + [s])[..|samples|] == samples;
  }

  /** The gathered bits telescope: no more than the fastest link carries from first to last tick. */
  lemma {:induction false} AreaWithin(maxBandwidth: nat, samples: seq<Sample>)
    requires Chronological(maxBandwidth, samples)
    ensures Begin(samples) <= End(samples)
    ensures 0 <= Area(samples) <= maxBandwidth * (End(samples) - Begin(samples))
  {
    var n := |samples| - 1;
    if n > 0 {
      AreaWithin(maxBandwidth, samples[..n]);
      var step := samples[n].time - samples[n - 1].time;
      Monotone(samples[n].rate, maxBandwidth, step, step);
      Distribute(maxBandwidth, samples[n - 1].time - samples[0].time, step);
    }
  }

  /** What a contact yields: its bits, in bytes, spent on the listed segments not yet buffered. */
  function Earned(sizes: Sizes, buffered: set<string>, samples: seq<Sample>, net: Network): Download {
    Pretend(sizes, Unbuffered(buffered, net.listed), Area(samples) / 8, net.served)
  }

  // ----- what a contact yields, from its bits -----

  /** Of the first n segments the node lists, those the client lacked and was handed, in order. */
  function Handed(buffered: set<string>, net: Network, n: nat): seq<string>
    requires n <= |net.listed|
  {
    if n == 0 then []
    else
      var id := net.listed[n - 1];
      Handed(buffered, net, n - 1) + if id !in buffered && id in net.served then [id] else []
  }

  /** Listed segment k is buffered already, or known and smaller than the bytes that what came before it leaves. */
  predicate Affordable(sizes: Sizes, buffered: set<string>, net: Network, bits: int, k: nat)
    requires k < |net.listed|
  {
    var id := net.listed[k];
    id !in buffered ==> id in sizes && (TotalSize(sizes, Handed(buffered, net, k)) + sizes[id] + 1) * 8 <= bits
  }

  /** The list is worked through to its end, or up to the first segment that is not affordable. */
  ghost predicate SpentUpTo(sizes: Sizes, buffered: set<string>, net: Network, bits: int, d: Download, stop: nat) {
    && stop <= |net.listed|
    && (forall k :: 0 <= k < stop ==> Affordable(sizes, buffered, net, bits, k))
    && (stop < |net.listed| ==> !Affordable(sizes, buffered, net, bits, stop))
    && d.got == Handed(buffered, net, stop)
    && (d.panicked <==> stop < |net.listed| && net.listed[stop] !in sizes)
  }

  lemma UnbufferedAt(buffered: set<string>, listed: seq<string>, i: nat)
    requires i < |listed|
    ensures Unbuffered(buffered, listed[i..])
            == (if listed[i] in buffered then [] else [listed[i]]) + Unbuffered(buffered, listed[i + 1..])
  {
    assert listed[i..][1..] == listed[i + 1..];
  }

  /** One listed segment more. */
  lemma SpendStep(sizes: Sizes, buffered: set<string>, net: Network, bits: int, i: nat)
    requires i < |net.listed|
    ensures var got, now := Handed(buffered, net, i), Handed(buffered, net, i + 1);
            var left := bits / 8 - TotalSize(sizes, got);
            After(got, Pretend(sizes, Unbuffered(buffered, net.listed[i..]), left, net.served))
            == if Affordable(sizes, buffered, net, bits, i)
               then After(now, Pretend(sizes, Unbuffered(buffered, net.listed[i + 1..]),
                   bits / 8 - TotalSize(sizes, now), net.served))
               else Download(got, net.listed[i] !in sizes)
  {
    hide Unbuffered, TotalSize, Pretend;
    var id, got := net.listed[i], Handed(buffered, net, i);
    UnbufferedAt(buffered, net.listed, i);
    TotalSizeSnoc(sizes, got, id);
    assert got + [] == got;
    if id !in buffered {
      var rest := Unbuffered(buffered, net.listed[i + 1..]);
      var segs := [id] + rest;
      assert segs[0..] == segs && segs[1..] == rest;
      PretendAt(sizes, segs, 0, bits / 8 - TotalSize(sizes, got), net.served, got);
    } else {
      var rest := Unbuffered(buffered, net.listed[i + 1..]);
      assert [] + rest == rest;
    }
  }

  lemma NothingListed(buffered: set<string>, listed: seq<string>)
    ensures Unbuffered(buffered, listed[|listed|..]) == []
  {
  }

  lemma {:induction false} SpentFrom(sizes: Sizes, buffered: set<string>, net: Network, bits: int, i: nat)
      returns (stop: nat)
    requires i <= |net.listed|
    requires forall k :: 0 <= k < i ==> Affordable(sizes, buffered, net, bits, k)
    ensures var got := Handed(buffered, net, i);
            SpentUpTo(sizes, buffered, net, bits,
                After(got, Pretend(sizes, Unbuffered(buffered, net.listed[i..]), bits / 8 - TotalSize(sizes, got),
                    net.served)), stop)
    decreases |net.listed| - i
  {
    hide Affordable, TotalSize, Unbuffered;
    if i == |net.listed| {
      stop := i;
      NothingListed(buffered, net.listed);
      assert Handed(buffered, net, i) + [] == Handed(buffered, net, i);
    } else {
      SpendStep(sizes, buffered, net, bits, i);
      if Affordable(sizes, buffered, net, bits, i) {
        stop := SpentFrom(sizes, buffered, net, bits, i + 1);
      } else {
        stop := i;
      }
    }
  }

  lemma EarnedFromStart(sizes: Sizes, buffered: set<string>, samples: seq<Sample>, net: Network)
    ensures var got := Handed(buffered, net, 0);
            Earned(sizes, buffered, samples, net)
            == After(got, Pretend(sizes, Unbuffered(buffered, net.listed[0..]),
                                  Area(samples) / 8 - TotalSize(sizes, got), net.served))
  {
    hide Area, Pretend, Unbuffered;
    assert net.listed[0..] == net.listed;
    var d := Earned(sizes, buffered, samples, net);
    assert [] + d.got == d.got;
  }

  /**
    A contact yields all it can: every listed segment that is handed over and
    lacking, in order, up to the first that its bits do not allow with a byte to
    spare, or that the video does not have. This determines what it yields.
   */
  lemma EarnedExactly(sizes: Sizes, buffered: set<string>, samples: seq<Sample>, net: Network) returns (stop: nat)
    ensures SpentUpTo(sizes, buffered, net, Area(samples), Earned(sizes, buffered, samples, net), stop)
  {
    hide *;
    EarnedFromStart(sizes, buffered, samples, net);
    stop := SpentFrom(sizes, buffered, net, Area(samples), 0);
  }

  /** A contact that yielded no more than its own bits. */
  ghost predicate Earnable(maxBandwidth: nat, c: Contact) {
    Chronological(maxBandwidth, c.samples) && c.bytes * 8 <= Area(c.samples)
  }

  /** The finished contacts ended in turn by the given time, none above its own bits. */
  ghost predicate InTurn(maxBandwidth: nat, cs: seq<Contact>, until: int) {
    var n := |cs| - 1;
    n >= 0 ==>
      && Earnable(maxBandwidth, cs[n])
      && End(cs[n].samples) <= until
      && InTurn(maxBandwidth, cs[..n], Begin(cs[n].samples))
  }

  function ContactBytes(cs: seq<Contact>): nat {
    if cs == [] then 0 else ContactBytes(cs[..|cs| - 1]) + cs[|cs| - 1].bytes
  }

  lemma ContactSnoc(maxBandwidth: nat, cs: seq<Contact>, c: Contact, until: int)
    requires InTurn(maxBandwidth, cs, Begin(c.samples)) && Earnable(maxBandwidth, c) && End(c.samples) <= until
    ensures InTurn(maxBandwidth, cs + [c], until)
  {
    hide Earnable;
    assert (cs + [c])[..|cs|] == cs;
  }

  lemma ContactBytesSnoc(cs: seq<Contact>, c: Contact)
    ensures ContactBytes(cs + [c]) == ContactBytes(cs) + c.bytes
  {
    assert (cs + [c])[..|cs|] == cs;
  }

  /** The bytes a contact receives again: none when the node lists each segment once. */
  ghost function Repeats(sizes: Sizes, buffered: set<string>, samples: seq<Sample>, net: Network): (bytes: nat)
    ensures Distinct(net.listed) ==> bytes == 0
  {
    var got := Earned(sizes, buffered, samples, net).got;
    if Distinct(net.listed) then
      DistinctRepeatsNothing(sizes, buffered, got);
      RepeatedSize(sizes, buffered, got)
    else RepeatedSize(sizes, buffered, got)
  }

  /** A contact's spending keeps within its bits, and the buffer grows by what is not received again. */
  lemma EarnedWithin(sizes: Sizes, buffered: set<string>, samples: seq<Sample>, net: Network)
    requires Area(samples) >= 0
    ensures var got := Earned(sizes, buffered, samples, net).got;
            && TotalSize(sizes, got) * 8 <= Area(samples)
            && SetSum(buffered + SetOf(got), SizeIn(sizes)) + Repeats(sizes, buffered, samples, net)
               == SetSum(buffered, SizeIn(sizes)) + TotalSize(sizes, got)
  {
    BufferGrowth(sizes, buffered, Earned(sizes, buffered, samples, net).got);
  }

  /** All contacts together yield no more than the fastest link carries from first to last. */
  lemma {:induction false} AllContactsWithinLink(maxBandwidth: nat, cs: seq<Contact>, until: int)
    requires InTurn(maxBandwidth, cs, until) && cs != []
    ensures Begin(cs[0].samples) <= until
    ensures ContactBytes(cs) * 8 <= maxBandwidth * (until - Begin(cs[0].samples))
  {
    var n := |cs| - 1;
    var last := cs[n].samples;
    AreaWithin(maxBandwidth, last);
    Monotone(maxBandwidth, maxBandwidth, End(last) - Begin(last), until - Begin(last));
    if n > 0 {
      AllContactsWithinLink(maxBandwidth, cs[..n], Begin(last));
      Distribute(maxBandwidth, Begin(last) - Begin(cs[0].samples), until - Begin(last));
    } else {
      assert cs[..0] == [];
    }
  }
}
