/**
  The simulated client: it moves along its trajectory, gathers link bits while
  near an edge node, spends them when the contact ends, and fills what is
  missing from the cloud.
 */
module Clients {
  import opened Collections
  import opened ClientModel

  datatype Point = Point(lat: real, lon: real, timestamp: real)

  class Trajectory {
    const points: seq<Point>
    var curIdx: nat

    constructor (points: seq<Point>)
      ensures this.points == points && curIdx == 0
    {
      this.points, curIdx := points, 0;
    }

    predicate HasEnded()
      reads this
    {
      curIdx == |points|
    }

    method Advance() returns (timeMoved: bool)
      requires curIdx < |points|
      modifies this
      ensures curIdx == old(curIdx) + 1
      ensures timeMoved <==> curIdx < |points| && points[old(curIdx)].timestamp < points[curIdx].timestamp
    {
      timeMoved := false;
      if |points| > curIdx + 1 {
        var before := points[curIdx].timestamp;
        curIdx := curIdx + 1;
        if points[curIdx].timestamp > before {
          timeMoved := true;
        }
      } else {
        curIdx := |points|;
      }
    }
  }

  const NEAR := 40.0

  class Client {
    const trajectory: Trajectory
    const sizes: Sizes
    /** Nearest edge node to a point, and its distance in metres. */
    const nearest: Point -> (string, real)
    /** Whole bits per second of a node's link at a distance. */
    const speed: (string, real) -> nat
    const maxBandwidth: nat
    const filePath: string -> string
    const truncationTime: int

    var allUrls: seq<string>
    var completedUrls: seq<string>
    var playback: nat
    var availableBits: int
    var startContact: int
    var endContact: int
    var timeOfLastContact: int
    var lastDistance: real
    var lastNode: Option<string>
    var bufferedData: set<string>
    var receivedBytesCloud: nat
    var receivedBytesEdge: nat

    /** The current contact's samples, the finished contacts, and the time of the last tick. */
    ghost var samples: seq<Sample>
    /** Bytes received from the edge again, although buffered. */
    ghost var repeated: nat
    ghost var contacts: seq<Contact>
    ghost var lastTick: int

    /** The files of some urls. */
    ghost function Files(urls: seq<string>): set<string> {
      set url | url in urls :: filePath(url)
    }

    /** Received bytes are the buffered ones and those received again; the played urls are a buffered prefix. */
    ghost predicate BufferInv()
      reads this
    {
      && receivedBytesEdge + receivedBytesCloud == SetSum(bufferedData, SizeIn(sizes)) + repeated
      && completedUrls <= allUrls
      && Files(completedUrls) <= bufferedData
    }

    /** In contact, the bits are what the link carried over the samples; the contacts before ended in turn. */
    ghost predicate Gathering()
      reads this
    {
      && lastNode.Some?
      && Chronological(maxBandwidth, samples)
      && availableBits == Area(samples)
      && End(samples) <= lastTick
      && InTurn(maxBandwidth, contacts, Begin(samples))
      && receivedBytesEdge == ContactBytes(contacts)
    }

    ghost predicate Settled()
      reads this
    {
      && InTurn(maxBandwidth, contacts, lastTick)
      && receivedBytesEdge == ContactBytes(contacts)
    }

    ghost predicate ContactInv()
      reads this
    {
      if lastNode.None? then Settled() else
        && Gathering()
        && startContact == Begin(samples)
        && timeOfLastContact == End(samples) == endContact
    }

    ghost predicate Valid()
      reads this, trajectory
    {
      && trajectory.curIdx <= |trajectory.points|
      && (forall n, d :: speed(n, d) <= maxBandwidth)
      && BufferInv() && ContactInv()
    }

    function EdgeBandwidth(node: string, distance: real): (bandwidth: nat)
    {
      if distance < NEAR then speed(node, distance) else 0
    }

    constructor (trajectory: Trajectory, sizes: Sizes, nearest: Point -> (string, real), speed: (string, real) -> nat,
                 maxBandwidth: nat, filePath: string -> string, truncationTime: int, begin: int)
      requires trajectory.curIdx <= |trajectory.points| && forall n, d :: speed(n, d) <= maxBandwidth
      ensures Valid() && contacts == [] && allUrls == [] && lastNode == None && lastTick == begin
      ensures this.trajectory == trajectory && this.sizes == sizes && this.nearest == nearest && this.speed == speed
      ensures this.maxBandwidth == maxBandwidth && this.filePath == filePath && this.truncationTime == truncationTime
      ensures receivedBytesEdge == receivedBytesCloud == playback == repeated == 0
      ensures completedUrls == [] && bufferedData == {} && samples == [] && lastDistance == 0.0
      ensures availableBits == startContact == endContact == timeOfLastContact == 0
    {
      this.trajectory, this.sizes, this.nearest, this.speed := trajectory, sizes, nearest, speed;
      this.maxBandwidth, this.filePath, this.truncationTime := maxBandwidth, filePath, truncationTime;
      allUrls, completedUrls, playback := [], [], 0;
      availableBits, startContact, endContact, timeOfLastContact := 0, 0, 0, 0;
      lastDistance, lastNode, bufferedData := 0.0, None, {};
      receivedBytesCloud, receivedBytesEdge := 0, 0;
      samples, contacts, lastTick, repeated := [], [], begin, 0;
    }

    /** The urls of the cloud's answer; the runner registers a client only while it has none. */
    method Register(urls: seq<string>)
      requires Valid() && allUrls == []
      modifies this`allUrls
      ensures Valid() && allUrls == urls
    {
      allUrls := urls;
    }

    predicate IsCloudRequestNecessary(segment: string)
      reads this
    {
      segment !in bufferedData
    }

    /** Downloads segments while the contact's bytes last. */
    method PretendDownload(segs: seq<string>, totalBytes: int, served: set<string>)
      returns (bytes: nat, panicked: bool, ghost got: seq<string>)
      modifies this`bufferedData, this`receivedBytesEdge
      ensures Download(got, panicked) == Pretend(sizes, segs, totalBytes, served)
      ensures bytes == TotalSize(sizes, got)
      ensures bufferedData == old(bufferedData) + SetOf(got)
      ensures receivedBytesEdge == old(receivedBytesEdge) + bytes
    {
      hide Pretend, TotalSize, SetOf;
      var left, i := totalBytes, 0;
      bytes, panicked, got := 0, false, [];
      NothingYet(sizes, segs, totalBytes, served);
      while i < |segs|
        invariant i <= |segs|
        invariant left == totalBytes - bytes && bytes == TotalSize(sizes, got)
        invariant bufferedData == old(bufferedData) + SetOf(got)
        invariant receivedBytesEdge == old(receivedBytesEdge) + bytes
        invariant !panicked
        invariant After(got, Pretend(sizes, segs[i..], left, served)) == Pretend(sizes, segs, totalBytes, served)
      {
        PretendAt(sizes, segs, i, left, served, got);
        var segment := segs[i];
        if segment !in sizes {
          panicked := true;
          return;
        }
        if sizes[segment] >= left {
          return;
        }
        if segment in served {
          left := left - sizes[segment];
          bytes, got := Receive(segment, bytes, got);
        }
        i := i + 1;
      }
      PretendEnd(sizes, segs, left, served, got);
    }

    /** Buffers one segment from the edge. */
    method Receive(segment: string, bytes: nat, ghost got: seq<string>) returns (bytes': nat, ghost got': seq<string>)
      requires segment in sizes
      modifies this`bufferedData, this`receivedBytesEdge
      ensures bytes' == bytes + sizes[segment] && got' == got + [segment]
      ensures TotalSize(sizes, got') == TotalSize(sizes, got) + sizes[segment]
      ensures forall before :: old(bufferedData) == before + SetOf(got) ==> bufferedData == before + SetOf(got')
      ensures receivedBytesEdge == old(receivedBytesEdge) + sizes[segment]
    {
      bufferedData := bufferedData + {segment};
      receivedBytesEdge := receivedBytesEdge + sizes[segment];
      bytes' := bytes + sizes[segment];
      got' := got + [segment];
      TotalSizeSnoc(sizes, got, segment);
      SetOfSnoc(got, segment);
    }

    /** Downloads what the node lists and the client lacks. */
    method Spend(net: Network) returns (bytes: nat, panicked: bool)
      requires availableBits == Area(samples)
      modifies this`bufferedData, this`receivedBytesEdge
      ensures var d := Earned(sizes, old(bufferedData), samples, net);
              && bytes == TotalSize(sizes, d.got) && panicked == d.panicked
              && bufferedData == old(bufferedData) + SetOf(d.got)
              && receivedBytesEdge == old(receivedBytesEdge) + bytes
    {
      hide Pretend, TotalSize, SetOf, Unbuffered, Area;
      var totalBytes := availableBits / 8;
      var wanted := Unbuffered(bufferedData, net.listed);
      if |wanted| > 0 {
        ghost var got;
        bytes, panicked, got := PretendDownload(wanted, totalBytes, net.served);
      } else {
        NothingWanted(sizes, totalBytes, net.served);
        bytes, panicked := 0, false;
      }
    }

    /** Records the contact that ends here. */
    method CloseContact(bytes: nat)
      requires InTurn(maxBandwidth, contacts, Begin(samples)) && Chronological(maxBandwidth, samples)
      requires bytes * 8 <= Area(samples) && End(samples) <= lastTick
      requires receivedBytesEdge == ContactBytes(contacts) + bytes
      modifies this`contacts
      ensures Settled() && contacts == old(contacts) + [Contact(samples, bytes)]
    {
      hide Area, Chronological, InTurn, ContactBytes;
      ContactSnoc(maxBandwidth, contacts, Contact(samples, bytes), lastTick);
      ContactBytesSnoc(contacts, Contact(samples, bytes));
      contacts := contacts + [Contact(samples, bytes)];
    }

    /** Spends the contact's bits on what the node lists. */
    method MakeEdgeRequest(net: Network) returns (panicked: bool)
      requires BufferInv() && Gathering()
      modifies this`bufferedData, this`receivedBytesEdge, this`contacts, this`repeated
      ensures BufferInv() && Settled()
      ensures repeated == old(repeated) + Repeats(sizes, old(bufferedData), samples, net)
      ensures var d := Earned(sizes, old(bufferedData), samples, net);
              && panicked == d.panicked
              && bufferedData == old(bufferedData) + SetOf(d.got)
              && contacts == old(contacts) + [Contact(samples, TotalSize(sizes, d.got))]
      ensures exists got, stop :: SpentUpTo(sizes, old(bufferedData), net, Area(samples), Download(got, panicked), stop)
                && bufferedData == old(bufferedData) + SetOf(got)
                && contacts == old(contacts) + [Contact(samples, TotalSize(sizes, got))]
    {
      hide TotalSize, SetOf, Earned, Repeats, Area, SetSum, SizeIn, Files, Chronological, InTurn, ContactBytes,
          SpentUpTo;
      ghost var stop := EarnedExactly(sizes, bufferedData, samples, net);
      ghost var d := Earned(sizes, bufferedData, samples, net);
      assert Download(d.got, d.panicked) == d;
      AreaWithin(maxBandwidth, samples);
      EarnedWithin(sizes, bufferedData, samples, net);
      var bytes: nat;
      bytes, panicked := Spend(net);
      repeated := repeated + Repeats(sizes, old(bufferedData), samples, net);
      assert BufferInv();
      CloseContact(bytes);
    }

    /** The bits of the time since the last tick in contact. */
    method Gather(rate: nat, timestamp: int)
      requires Gathering() && rate <= maxBandwidth
      requires timeOfLastContact == End(samples) <= timestamp <= lastTick
      modifies this`availableBits, this`samples
      ensures Gathering() && samples == old(samples) + [Sample(timestamp, rate)]
      ensures Begin(samples) == Begin(old(samples)) && End(samples) == timestamp
    {
      hide Area, Chronological, InTurn, ContactBytes;
      var contactTime := timestamp - timeOfLastContact;
      var bits := 0;
      if contactTime > 0 {
        bits := rate * contactTime;
      }
      availableBits := availableBits + bits;
      SampleSnoc(maxBandwidth, samples, Sample(timestamp, rate));
      samples := samples + [Sample(timestamp, rate)];
    }

    /** Contact with a new node, without history. */
    method NewContact(node: string, distance: real, rate: nat, timestamp: int)
      requires Settled() && lastTick == timestamp && rate <= maxBandwidth
      modifies this`availableBits, this`startContact, this`endContact, this`timeOfLastContact, this`lastDistance,
               this`lastNode, this`samples
      ensures ContactInv() && lastNode == Some(node) && lastDistance == distance
      ensures samples == [Sample(timestamp, rate)]
    {
      availableBits, startContact, endContact, timeOfLastContact := 0, timestamp, timestamp, timestamp;
      lastDistance, lastNode := distance, Some(node);
      samples := [Sample(timestamp, rate)];
    }

    /** Tops the played urls up to one second ahead, from the buffer or else from the cloud. */
    method CloudFill(advanced: bool) returns (panicked: bool)
      requires BufferInv()
      modifies this`completedUrls, this`bufferedData, this`receivedBytesCloud
      ensures BufferInv() && old(completedUrls) <= completedUrls
      ensures bufferedData == old(bufferedData) + Files(completedUrls)
      ensures !advanced ==> !panicked && completedUrls == old(completedUrls)
      ensures advanced && !panicked ==>
                |completedUrls| == Max(|old(completedUrls)|, Min(playback + 1, |allUrls|))
      ensures panicked ==> |completedUrls| < Min(playback + 1, |allUrls|)
                           && filePath(allUrls[|completedUrls|]) !in bufferedData
                           && filePath(allUrls[|completedUrls|]) !in sizes
    {
      hide SetSum, Files;
      while advanced && |completedUrls| < |allUrls| && playback + 1 > |completedUrls|
        invariant BufferInv() && old(completedUrls) <= completedUrls
        invariant bufferedData == old(bufferedData) + Files(completedUrls)
        invariant !advanced ==> completedUrls == old(completedUrls)
        invariant |completedUrls| <= Max(|old(completedUrls)|, Min(playback + 1, |allUrls|))
        decreases |allUrls| - |completedUrls|
      {
        var nextUrl := allUrls[|completedUrls|];
        var filepath := filePath(nextUrl);
        FilesSnoc(completedUrls, nextUrl);
        if IsCloudRequestNecessary(filepath) {
          if filepath !in sizes {
            return true;
          }
          SetSumAdd(bufferedData, SizeIn(sizes), filepath);
          receivedBytesCloud := receivedBytesCloud + sizes[filepath];
          bufferedData := bufferedData + {filepath};
        }
        completedUrls := completedUrls + [nextUrl];
      }
      panicked := false;
    }

    /** The clock moves on. */
    ghost method Tick(timestamp: int)
      requires Valid() && lastTick <= timestamp
      modifies this`lastTick
      ensures Valid() && lastTick == timestamp
    {
      hide SetSum, SizeIn, Files, Chronological, InTurn, ContactBytes, Area;
      if lastNode.None? {
        InTurnLater(maxBandwidth, contacts, lastTick, timestamp);
      }
      lastTick := timestamp;
    }

    predicate Reachable(timestamp: int, distance: real) {
      distance < NEAR && (truncationTime == -1 || timestamp <= truncationTime)
    }

    /** What the history gains when a contact ends with these samples. */
    ghost function Gained(buffered: set<string>, final: seq<Sample>, net: Network): Contact {
      Contact(final, TotalSize(sizes, Earned(sizes, buffered, final, net).got))
    }

    /** The contact ends: spend its bits and forget the node. */
    method Leave(net: Network) returns (panicked: bool)
      requires BufferInv() && Gathering()
      modifies this`bufferedData, this`receivedBytesEdge, this`contacts, this`lastNode, this`repeated
      ensures BufferInv() && Settled() && lastNode == None
      ensures repeated == old(repeated) + Repeats(sizes, old(bufferedData), samples, net)
      ensures contacts == old(contacts) + [Gained(old(bufferedData), samples, net)]
      ensures panicked == Earned(sizes, old(bufferedData), samples, net).panicked
      ensures bufferedData == old(bufferedData) + SetOf(Earned(sizes, old(bufferedData), samples, net).got)
    {
      hide Earned, SetOf, SetSum, SizeIn, Files, Chronological, InTurn, ContactBytes, TotalSize, Area, Repeats;
      panicked := MakeEdgeRequest(net);
      lastNode := None;
    }

    /** Out of reach: the last stretch counts at the bandwidth of the last known distance. */
    method LoseContact(timestamp: int, net: Network) returns (panicked: bool)
      requires BufferInv() && ContactInv() && lastNode.Some?
      requires lastTick == timestamp && forall n, d :: speed(n, d) <= maxBandwidth
      modifies this`availableBits, this`samples, this`bufferedData, this`receivedBytesEdge, this`contacts,
          this`lastNode, this`repeated
      ensures BufferInv() && ContactInv() && lastNode == None
      ensures var rate := EdgeBandwidth(old(lastNode).value, lastDistance);
              && contacts == old(contacts) + [Gained(old(bufferedData), old(samples) + [Sample(timestamp, rate)], net)]
              && repeated == old(repeated)
                  + Repeats(sizes, old(bufferedData), old(samples) + [Sample(timestamp, rate)], net)
              && panicked == Earned(sizes, old(bufferedData), old(samples) + [Sample(timestamp, rate)], net).panicked
    {
      hide SetSum, SizeIn, Files, Earned, SetOf, Chronological, InTurn, ContactBytes, TotalSize, Area, Gained, Repeats;
      var lastBw := EdgeBandwidth(lastNode.value, lastDistance);
      Gather(lastBw, timestamp);
      panicked := Leave(net);
    }

    /** Another node is nearer: the last stretch counts at the new node's bandwidth. */
    method ChangeContact(node: string, distance: real, timestamp: int, net: Network) returns (panicked: bool)
      requires BufferInv() && ContactInv() && lastNode.Some?
      requires lastTick == timestamp && forall n, d :: speed(n, d) <= maxBandwidth
      modifies this`availableBits, this`startContact, this`endContact, this`timeOfLastContact, this`lastDistance,
               this`samples, this`bufferedData, this`receivedBytesEdge, this`contacts, this`lastNode, this`repeated
      ensures BufferInv() && ContactInv() && lastNode == Some(node) && lastDistance == distance
      ensures var here := Sample(timestamp, EdgeBandwidth(node, distance));
              && contacts == old(contacts) + [Gained(old(bufferedData), old(samples) + [here], net)]
              && repeated == old(repeated) + Repeats(sizes, old(bufferedData), old(samples) + [here], net)
              && panicked == Earned(sizes, old(bufferedData), old(samples) + [here], net).panicked
              && samples == [here]
    {
      hide SetSum, SizeIn, Files, Earned, SetOf, Chronological, InTurn, ContactBytes, TotalSize, Area, Gained, Repeats;
      var bw := EdgeBandwidth(node, distance);
      endContact := timestamp;
      Gather(bw, timestamp);
      panicked := Leave(net);
      NewContact(node, distance, bw, timestamp);
    }

    /** Still near the same node: the stretch since the last tick counts at the present bandwidth. */
    method ContinueContact(distance: real, timestamp: int)
      requires ContactInv() && lastNode.Some?
      requires lastTick == timestamp && forall n, d :: speed(n, d) <= maxBandwidth
      modifies this`availableBits, this`samples, this`lastDistance, this`timeOfLastContact, this`endContact
      ensures ContactInv() && lastDistance == distance
      ensures samples == old(samples) + [Sample(timestamp, EdgeBandwidth(lastNode.value, distance))]
    {
      hide Chronological, InTurn, ContactBytes, Area;
      var bw := EdgeBandwidth(lastNode.value, distance);
      Gather(bw, timestamp);
      if distance != lastDistance || timestamp != timeOfLastContact {
        lastDistance, timeOfLastContact, endContact := distance, timestamp, timestamp;
      }
    }

    /** In reach of a node: a new, a changed or a continued contact. */
    method StayInTouch(node: string, distance: real, timestamp: int, net: Network) returns (panicked: bool)
      requires BufferInv() && ContactInv()
      requires lastTick == timestamp && forall n, d :: speed(n, d) <= maxBandwidth
      modifies this`availableBits, this`startContact, this`endContact, this`timeOfLastContact, this`lastDistance,
               this`samples, this`bufferedData, this`receivedBytesEdge, this`contacts, this`lastNode, this`repeated
      ensures BufferInv() && ContactInv() && lastNode == Some(node) && lastDistance == distance
      ensures var here := Sample(timestamp, EdgeBandwidth(node, distance));
              && samples == (if old(lastNode) == Some(node) then old(samples) + [here] else [here])
              && contacts == old(contacts) + (if old(lastNode).None? || old(lastNode) == Some(node) then []
                                              else [Gained(old(bufferedData), old(samples) + [here], net)])
              && repeated == old(repeated) + (if old(lastNode).None? || old(lastNode) == Some(node) then 0
                                              else Repeats(sizes, old(bufferedData), old(samples) + [here], net))
              && (panicked <==> old(lastNode).Some? && old(lastNode) != Some(node)
                                && Earned(sizes, old(bufferedData), old(samples) + [here], net).panicked)
    {
      hide SetSum, SizeIn, Files, Chronological, InTurn, ContactBytes, Area, Gained, Repeats;
      panicked := false;
      if lastNode.None? {
        var bw := EdgeBandwidth(node, distance);
        NewContact(node, distance, bw, timestamp);
      } else if lastNode.value != node {
        panicked := ChangeContact(node, distance, timestamp, net);
      } else {
        ContinueContact(distance, timestamp);
      }
    }

    /** The trajectory's next point. */
    method Move() returns (timeMoved: bool)
      requires trajectory.curIdx <= |trajectory.points|
      modifies trajectory
      ensures trajectory.curIdx == Min(old(trajectory.curIdx) + 1, |trajectory.points|)
      ensures timeMoved <==>
                && trajectory.curIdx < |trajectory.points|
                && trajectory.points[old(trajectory.curIdx)].timestamp < trajectory.points[trajectory.curIdx].timestamp
    {
      if trajectory.HasEnded() {
        return false;
      }
      timeMoved := trajectory.Advance();
    }

    /** A contact's samples after a tick: at the trajectory's end nothing more is counted. */
    ghost function Sampled(before: seq<Sample>, timestamp: int, rate: nat): seq<Sample>
      reads trajectory
    {
      if trajectory.HasEnded() then before else before + [Sample(timestamp, rate)]
    }

    /** The link rate of a tick: that of the node in reach, or else of the last known node and distance. */
    ghost function Rate(timestamp: int, lastKnown: string, lastDistance: real): nat
      requires trajectory.curIdx <= |trajectory.points|
      reads trajectory
    {
      if InReach(timestamp).None? then EdgeBandwidth(lastKnown, lastDistance) else Here()
    }

    ghost function Here(): nat
      requires trajectory.curIdx < |trajectory.points|
      reads trajectory
    {
      var (node, distance) := nearest(trajectory.points[trajectory.curIdx]);
      EdgeBandwidth(node, distance)
    }

    /** The contacts that end at a tick, with what they yield. */
    ghost function Ended(before: Option<string>, distance: real, samples: seq<Sample>, buffered: set<string>,
                         timestamp: int, net: Network): seq<Contact>
      requires trajectory.curIdx <= |trajectory.points|
      reads trajectory
    {
      if before.None? || before == InReach(timestamp) then []
      else [Gained(buffered, Sampled(samples, timestamp, Rate(timestamp, before.value, distance)), net)]
    }

    /** The contact that ends at a tick meets a segment the video does not have. */
    ghost predicate EndedPanics(before: Option<string>, distance: real, samples: seq<Sample>, buffered: set<string>,
                                timestamp: int, net: Network)
      requires trajectory.curIdx <= |trajectory.points|
      reads trajectory
    {
      && before.Some? && before != InReach(timestamp)
      && Earned(sizes, buffered, Sampled(samples, timestamp, Rate(timestamp, before.value, distance)), net).panicked
    }

    /** The next url to play is that of a file neither buffered nor in the video. */
    ghost predicate Unfillable()
      reads this
    {
      && |completedUrls| < Min(playback + 1, |allUrls|)
      && filePath(allUrls[|completedUrls|]) !in bufferedData && filePath(allUrls[|completedUrls|]) !in sizes
    }

    /** The bytes received again at a tick. */
    ghost function EndedRepeats(before: Option<string>, distance: real, samples: seq<Sample>, buffered: set<string>,
                                timestamp: int, net: Network): (bytes: nat)
      requires trajectory.curIdx <= |trajectory.points|
      reads trajectory
      ensures Distinct(net.listed) ==> bytes == 0
    {
      if before.None? || before == InReach(timestamp) then 0
      else Repeats(sizes, buffered, Sampled(samples, timestamp, Rate(timestamp, before.value, distance)), net)
    }

    /** The node in reach at the trajectory's present point. */
    function InReach(timestamp: int): Option<string>
      requires trajectory.curIdx <= |trajectory.points|
      reads trajectory
    {
      if trajectory.HasEnded() then None else
        var (node, distance) := nearest(trajectory.points[trajectory.curIdx]);
        if Reachable(timestamp, distance) then Some(node) else None
    }

    /** The nearest node and its distance at the trajectory's present point. */
    ghost function NearestHere(): (string, real)
      requires trajectory.curIdx < |trajectory.points|
      reads trajectory
    {
      nearest(trajectory.points[trajectory.curIdx])
    }

    /** A finished contact: these samples, all that their bits allow of what the node lists, and whether it panicked. */
    ghost predicate Spent(contact: Contact, panicked: bool, final: seq<Sample>, buffered: set<string>, net: Network) {
      exists d, stop :: SpentUpTo(sizes, buffered, net, Area(final), d, stop)
                        && contact == Contact(final, TotalSize(sizes, d.got)) && panicked == d.panicked
    }

    lemma GainedSpent(buffered: set<string>, final: seq<Sample>, net: Network)
      ensures Spent(Gained(buffered, final, net), Earned(sizes, buffered, final, net).panicked, final, buffered, net)
    {
      hide SpentUpTo, Earned, Area, TotalSize;
      var stop := EarnedExactly(sizes, buffered, final, net);
    }

    /** Within 40 metres of the nearest node and not past the truncation time there is contact, at that node's speed. */
    lemma InReachExactly(timestamp: int)
      requires trajectory.curIdx <= |trajectory.points|
      ensures trajectory.curIdx == |trajectory.points| ==> InReach(timestamp) == None
      ensures trajectory.curIdx < |trajectory.points| ==>
                var (node, distance) := NearestHere();
                if distance >= 40.0 || (truncationTime != -1 && timestamp > truncationTime) then
                  InReach(timestamp) == None
                else InReach(timestamp) == Some(node) && Here() == speed(node, distance)
    {
    }

    /**
      A contact ends when its node is not in reach any more, with a last stretch
      at the speed of the node reached now, or else of the last one at its last
      distance; at the trajectory's end without one.
     */
    lemma EndedExactly(before: Option<string>, distance: real, samples: seq<Sample>, buffered: set<string>,
                       timestamp: int, net: Network)
      requires trajectory.curIdx <= |trajectory.points|
      ensures var ended := Ended(before, distance, samples, buffered, timestamp, net);
              var panics := EndedPanics(before, distance, samples, buffered, timestamp, net);
              if before == None || before == InReach(timestamp) then ended == [] && !panics
              else
                && |ended| == 1
                && (trajectory.curIdx == |trajectory.points| ==> Spent(ended[0], panics, samples, buffered, net))
                && (trajectory.curIdx < |trajectory.points| ==>
                      var rate := if InReach(timestamp).Some? then speed(NearestHere().0, NearestHere().1)
                          else if distance < 40.0 then speed(before.value, distance) else 0;
                      Spent(ended[0], panics, samples + [Sample(timestamp, rate)], buffered, net))
    {
      hide Gained, Spent;
      InReachExactly(timestamp);
      if before.Some? && before != InReach(timestamp) {
        GainedSpent(buffered, Sampled(samples, timestamp, Rate(timestamp, before.value, distance)), net);
      }
    }

    /** The contact part of a tick: whoever is in reach afterwards, a contact that ended is spent once. */
    method Contacted(timestamp: int, net: Network, advanced: bool) returns (panicked: bool)
      requires Valid() && lastTick == timestamp
      modifies this`availableBits, this`startContact, this`endContact, this`timeOfLastContact, this`lastDistance,
               this`samples, this`bufferedData, this`receivedBytesEdge, this`contacts, this`lastNode, this`repeated,
               this`completedUrls, this`receivedBytesCloud
      ensures Valid() && lastNode == InReach(timestamp)
      ensures contacts == old(contacts)
                          + Ended(old(lastNode), old(lastDistance), old(samples), old(bufferedData), timestamp, net)
      ensures repeated == old(repeated)
                          + EndedRepeats(old(lastNode), old(lastDistance), old(samples), old(bufferedData),
                              timestamp, net)
      ensures lastNode.Some? ==>
                samples == (if old(lastNode) == lastNode then old(samples) else []) + [Sample(timestamp, Here())]
      ensures old(completedUrls) <= completedUrls
      ensures lastNode.Some? || trajectory.HasEnded() || !advanced ==> completedUrls == old(completedUrls)
      ensures lastNode.None? && !trajectory.HasEnded() && advanced && !panicked ==>
                |completedUrls| == Max(|old(completedUrls)|, Min(playback + 1, |allUrls|))
      ensures EndedPanics(old(lastNode), old(lastDistance), old(samples), old(bufferedData), timestamp, net) ==>
                panicked && completedUrls == old(completedUrls)
      ensures panicked ==>
                || EndedPanics(old(lastNode), old(lastDistance), old(samples), old(bufferedData), timestamp, net)
                || (lastNode.None? && !trajectory.HasEnded() && advanced && Unfillable())
    {
      hide SetSum, SizeIn, Files, Chronological, InTurn, ContactBytes, Area, Gained, SetOf, Earned, Repeats;
      panicked := false;
      if trajectory.HasEnded() {
        if lastNode.Some? {
          panicked := Leave(net);
        }
        return;
      }
      var (node, distance) := nearest(trajectory.points[trajectory.curIdx]);
      if !Reachable(timestamp, distance) {
        if lastNode.Some? {
          panicked := LoseContact(timestamp, net);
        }
        if !panicked {
          panicked := CloudFill(advanced);
        }
      } else {
        panicked := StayInTouch(node, distance, timestamp, net);
      }
    }

    /** One tick of the client; a panic ends the run. */
    method FetchSegments(timestamp: int, net: Network) returns (proceeded: bool, panicked: bool)
      requires Valid() && lastTick <= timestamp
      modifies this, trajectory
      ensures Valid() && lastTick == timestamp && allUrls == old(allUrls)
      ensures trajectory.curIdx == Min(old(trajectory.curIdx) + 1, |trajectory.points|)
      ensures lastNode == InReach(timestamp)
      ensures contacts == old(contacts)
                          + Ended(old(lastNode), old(lastDistance), old(samples), old(bufferedData), timestamp, net)
      ensures repeated == old(repeated)
                          + EndedRepeats(old(lastNode), old(lastDistance), old(samples), old(bufferedData),
                              timestamp, net)
      ensures lastNode.Some? ==>
                samples == (if old(lastNode) == lastNode then old(samples) else []) + [Sample(timestamp, Here())]
      ensures old(completedUrls) <= completedUrls
      ensures var advanced := !trajectory.HasEnded()
                && trajectory.points[old(trajectory.curIdx)].timestamp < trajectory.points[trajectory.curIdx].timestamp;
              && proceeded == (trajectory.HasEnded() || advanced) && (panicked ==> playback == old(playback))
              && (!panicked ==>
                   playback == old(playback)
                   + if advanced && trajectory.points[0].timestamp < timestamp as real then 1 else 0)
              && (!panicked && advanced && lastNode.None? ==>
                   |completedUrls| == Max(|old(completedUrls)|, Min(old(playback) + 1, |allUrls|)))
      ensures EndedPanics(old(lastNode), old(lastDistance), old(samples), old(bufferedData), timestamp, net) ==>
                panicked && completedUrls == old(completedUrls)
      ensures panicked ==>
                || EndedPanics(old(lastNode), old(lastDistance), old(samples), old(bufferedData), timestamp, net)
                || (lastNode.None? && !trajectory.HasEnded() && Unfillable())
    {
      hide SetSum, SizeIn, Files, Chronological, InTurn, ContactBytes, Area, Gained, SetOf, Earned, Repeats;
      var advanced := Move();
      Tick(timestamp);
      panicked := Contacted(timestamp, net, advanced);
      if trajectory.HasEnded() || panicked {
        return trajectory.HasEnded() || advanced, panicked;
      }
      if timestamp as real > trajectory.points[0].timestamp && advanced {
        playback := playback + 1;
      }
      proceeded := advanced;
    }

    predicate IsDone()
      reads this, trajectory
    {
      (|allUrls| > 0 && |allUrls| == |completedUrls|) || trajectory.HasEnded()
    }

    predicate StandsStill(k: nat)
      requires k < |trajectory.points|
    {
      k + 1 < |trajectory.points| && trajectory.points[k + 1].timestamp <= trajectory.points[k].timestamp
    }

    /** The runner's turn for a client: points follow one another until time moves or the trajectory ends. */
    method Turn(timestamp: int, nets: nat -> Network) returns (panicked: bool)
      requires Valid() && lastTick <= timestamp && !IsDone()
      modifies this, trajectory
      ensures Valid() && lastTick == timestamp && allUrls == old(allUrls)
      ensures old(trajectory.curIdx) < trajectory.curIdx
      ensures old(playback) <= playback <= old(playback) + 1 && old(completedUrls) <= completedUrls
      ensures (forall k :: Distinct(nets(k).listed)) ==> repeated == old(repeated)
      ensures !panicked ==>
                && (forall k :: old(trajectory.curIdx) <= k < trajectory.curIdx - 1 ==> StandsStill(k))
                && (trajectory.HasEnded() || !StandsStill(trajectory.curIdx - 1))
    {
      hide BufferInv, ContactInv, Ended, EndedRepeats, EndedPanics, Unfillable, Here, InReach;
      var proceeded: bool;
      ghost var first := trajectory.curIdx;
      proceeded, panicked := FetchSegments(timestamp, nets(0));
      var calls := 1;
      while !proceeded && !panicked
        invariant Valid() && lastTick == timestamp && allUrls == old(allUrls)
        invariant first < trajectory.curIdx
        invariant forall k :: first <= k < trajectory.curIdx - 1 ==> StandsStill(k)
        invariant !panicked ==> (proceeded <==> trajectory.HasEnded() || !StandsStill(trajectory.curIdx - 1))
        invariant old(playback) <= playback <= old(playback) + (if proceeded then 1 else 0)
        invariant old(completedUrls) <= completedUrls
        invariant (forall k :: Distinct(nets(k).listed)) ==> repeated == old(repeated)
        decreases |trajectory.points| - trajectory.curIdx, !proceeded
      {
        proceeded, panicked := FetchSegments(timestamp, nets(calls));
        calls := calls + 1;
      }
    }

    lemma FilesSnoc(urls: seq<string>, url: string)
      ensures Files(urls + [url]) == Files(urls) + {filePath(url)}
    {
    }

    /** All edge bytes fit the fastest link between the first contact's start and now. */
    lemma EdgeBytesWithinLink()
      requires Valid() && contacts != []
      ensures receivedBytesEdge * 8 <= maxBandwidth * (lastTick - Begin(contacts[0].samples))
    {
      if lastNode.Some? {
        AreaWithin(maxBandwidth, samples);
        InTurnLater(maxBandwidth, contacts, Begin(samples), lastTick);
      }
      AllContactsWithinLink(maxBandwidth, contacts, lastTick);
    }
  }

  function Min(a: int, b: int): int { if a < b then a else b }

  function Max(a: int, b: int): int { if a < b then b else a }

  lemma NothingYet(sizes: Sizes, segs: seq<string>, left: int, served: set<string>)
    ensures After([], Pretend(sizes, segs[0..], left, served)) == Pretend(sizes, segs, left, served)
    ensures TotalSize(sizes, []) == 0 && SetOf([]) == {}
  {
    assert segs[0..] == segs;
  }

  lemma PretendEnd(sizes: Sizes, segs: seq<string>, left: int, served: set<string>, got: seq<string>)
    ensures After(got, Pretend(sizes, segs[|segs|..], left, served)) == Download(got, false)
  {
  }

  lemma NothingWanted(sizes: Sizes, left: int, served: set<string>)
    ensures Pretend(sizes, [], left, served) == Download([], false)
    ensures TotalSize(sizes, []) == 0 && SetOf([]) == {}
  {
  }

  lemma InTurnLater(maxBandwidth: nat, cs: seq<Contact>, until: int, later: int)
    requires InTurn(maxBandwidth, cs, until) && until <= later
    ensures InTurn(maxBandwidth, cs, later)
  {
  }
}
