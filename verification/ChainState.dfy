/** Chain state: the context of a header, promoted from its parent by sliding windows over the
    values of preceding headers, against the windows that a query from scratch would fetch.
 */
module ChainState {
  import opened Words

  const MEDIAN_TIME_PAST_INTERVAL: nat := 11

  datatype Forks = Forks(difficult: bool, retarget: bool, bip16: bool, bip30: bool, bip30Deactivate: bool,
                         bip30Reactivate: bool, bip34: bool, bip65: bool, bip66: bool, bip68: bool, bip90: bool,
                         bip112: bool, bip113: bool, bip141: bool, bip143: bool, bip147: bool, bip341: bool,
                         bip342: bool, ltcTimeWarpPatch: bool, blockStormPatch: bool)

  datatype Checkpoint = Checkpoint(hash: nat, height: nat)

  /** `checkpoints` are those of bip30 deactivation and of the three bip9 activations, in this order. */
  datatype Settings = Settings(forks: Forks, interval: nat, sample: nat, limit: nat, spacing: nat,
                               minimumTimespan: nat, maximumTimespan: nat, checkpoints: seq<Checkpoint>)

  datatype Header = Header(hash: nat, bits: nat, version: nat, timestamp: nat)

  /** The null hash. */
  const NULL_HASH: nat := 0

  datatype Data = Data(height: nat, hash: nat, checkpointHashes: seq<nat>,
                       bitsSelf: nat, bits: seq<nat>,
                       versionSelf: nat, versions: seq<nat>,
                       timestampSelf: nat, retarget: nat, timestamps: seq<nat>)

  /** The count of heights back to the closest retarget height: the remainder, see `DistanceIs`. */
  function RetargetDistance(height: nat, interval: nat): (r: nat)
    requires interval > 0
    ensures r < interval && r <= height
  {
    if height < interval then height else RetargetDistance(height - interval, interval)
  }

  lemma {:induction false} DistanceIs(height: nat, interval: nat)
    requires interval > 0
    ensures RetargetDistance(height, interval) == height % interval
  {
    if height < interval {
      DivideUnique(height, interval, 0, height);
    } else {
      DistanceIs(height - interval, interval);
      var q, r := (height - interval) / interval, (height - interval) % interval;
      assert height - interval == q * interval + r;
      assert (q + 1) * interval == q * interval + interval;
      DivideUnique(height, interval, q + 1, r);
    }
  }

  predicate IsRetargetHeight(height: nat, interval: nat)
    requires interval > 0
  {
    RetargetDistance(height, interval) == 0
  }

  // ---- What a query from scratch requests ----

  function BitsCount(height: nat, c: Settings): nat
    requires c.interval > 0
  {
    if c.forks.difficult then 1
    else if !c.forks.retarget then 1
    else if !c.forks.blockStormPatch && IsRetargetHeight(height, c.interval) then 1
    else Min(height, c.interval)
  }

  function VersionCount(height: nat, c: Settings): nat {
    if c.forks.bip90 || (!c.forks.bip34 && !c.forks.bip65 && !c.forks.bip66) then 0
    else Min(height, c.sample)
  }

  function TimestampCount(height: nat): nat {
    Min(height, MEDIAN_TIME_PAST_INTERVAL)
  }

  /** The most recent retarget height below the given one. */
  function RetargetHeight(height: nat, interval: nat): (r: nat)
    requires interval > 0 && height > 0
    ensures r < height
  {
    DistanceBound(height, interval);
    height - (if IsRetargetHeight(height, interval) then interval else RetargetDistance(height, interval))
  }

  lemma {:induction false} DistanceBound(height: nat, interval: nat)
    requires interval > 0 && height > 0
    ensures RetargetDistance(height, interval) == 0 ==> interval <= height
  {
  }

  lemma {:induction false} DistanceNext(height: nat, interval: nat)
    requires interval > 0
    ensures var d := RetargetDistance(height, interval);
      RetargetDistance(height + 1, interval) == if d + 1 == interval then 0 else d + 1
  {
    if height >= interval {
      DistanceNext(height - interval, interval);
    }
  }

  lemma {:induction false} RetargetNext(height: nat, interval: nat)
    requires interval > 0
    ensures IsRetargetHeight(height, interval) ==> RetargetHeight(height + 1, interval) == height
    ensures !IsRetargetHeight(height, interval) ==>
              height > 0 && RetargetHeight(height + 1, interval) == RetargetHeight(height, interval)
  {
    DistanceNext(height, interval);
    if height > 0 {
      DistanceBound(height, interval);
    }
  }

  /** Whether the map requests the hash of a checkpoint that has been reached. */
  predicate Requested(i: nat, forks: Forks) {
    match i
    case 0 => forks.bip30 && forks.bip30Deactivate
    case 1 => forks.bip68 || forks.bip112 || forks.bip113
    case 2 => forks.bip141 || forks.bip143 || forks.bip147
    case 3 => forks.bip341 || forks.bip342
    case _ => false
  }

  // ---- Promotion ----

  /** A window past one more value, less its oldest when it then exceeds the count. */
  function Push(window: seq<nat>, value: nat, count: nat): seq<nat> {
    var pushed := window + [value];
    if |pushed| > count then pushed[1..] else pushed
  }

  /** State for the pool above a block: windows slide over the values of the block. */
  function ToPool(top: Data, c: Settings, signal: nat): Data
    requires c.interval > 0
  {
    var height := top.height + 1;
    var bits := Push(top.bits, top.bitsSelf, BitsCount(height, c));
    var versions := Push(top.versions, top.versionSelf, VersionCount(height, c));
    var timestamps := Push(top.timestamps, top.timestampSelf, TimestampCount(height));
    var retarget :=
      if c.forks.retarget && IsRetargetHeight(height - 1, c.interval) then
        (if c.forks.ltcTimeWarpPatch && height != 1 && |timestamps| >= 2
         then timestamps[|timestamps| - 2] else top.timestampSelf)
      else top.retarget;
    top.(height := height, hash := NULL_HASH, bitsSelf := 0, bits := bits, versionSelf := signal,
         versions := versions, timestamps := timestamps, retarget := retarget)
  }

  /** State for a header above its parent. */
  function ToHeader(parent: Data, header: Header, c: Settings, signal: nat): Data
    requires c.interval > 0
  {
    var data := ToPool(parent, c, signal);
    data.(hash := header.hash, bitsSelf := header.bits, versionSelf := header.version,
          timestampSelf := header.timestamp,
          checkpointHashes := CacheHashes(data.checkpointHashes, data.height, header.hash, c.checkpoints))
  }

  /** State for a block from that of the pool at its height, which has no hash. */
  function ToBlock(pool: Data, header: Header, c: Settings): Data {
    pool.(hash := NULL_HASH, bitsSelf := header.bits, versionSelf := header.version,
          timestampSelf := header.timestamp,
          checkpointHashes := CacheHashes(pool.checkpointHashes, pool.height, NULL_HASH, c.checkpoints))
  }

  /** The state of the pool: the values of the header below enter the windows, its timestamp stays, and
      the state has no hash or bits of its own. */
  lemma {:induction false} PoolIs(top: Data, c: Settings, signal: nat)
    requires c.interval > 0
    ensures var pool := ToPool(top, c, signal);
      && pool.height == top.height + 1 && pool.hash == 0 && pool.bitsSelf == 0 && pool.versionSelf == signal
      && pool.timestampSelf == top.timestampSelf && pool.checkpointHashes == top.checkpointHashes
      && (pool.bits != [] ==> pool.bits[|pool.bits| - 1] == top.bitsSelf)
      && (pool.versions != [] ==> pool.versions[|pool.versions| - 1] == top.versionSelf)
      && (pool.timestamps != [] ==> pool.timestamps[|pool.timestamps| - 1] == top.timestampSelf)
  {
    hide BitsCount, VersionCount, TimestampCount, IsRetargetHeight;
  }

  /** The two ways to the state of a header differ in its hash alone, kept and cached. */
  lemma {:induction false} BlockMatchesHeader(d: Data, header: Header, c: Settings, signal: nat, i: nat)
    requires c.interval > 0 && i < |c.checkpoints| == |d.checkpointHashes|
    ensures var block, next := ToBlock(ToPool(d, c, signal), header, c), ToHeader(d, header, c, signal);
      && block.(hash := next.hash, checkpointHashes := next.checkpointHashes) == next
      && (block.hash == next.hash <==> header.hash == NULL_HASH)
      && |block.checkpointHashes| == |next.checkpointHashes| == |c.checkpoints|
      && (block.checkpointHashes[i] == next.checkpointHashes[i] <==>
          c.checkpoints[i].height != d.height + 1 || header.hash == NULL_HASH)
  {
    hide Push, BitsCount, VersionCount, TimestampCount, IsRetargetHeight;
  }

  /** The hash of a header is cached at the height of a checkpoint, whatever the forks. */
  function CacheHashes(hashes: seq<nat>, height: nat, hash: nat, checkpoints: seq<Checkpoint>): (r: seq<nat>)
    ensures |r| == |hashes|
  {
    seq(|hashes|, i requires 0 <= i < |hashes| =>
      if i < |checkpoints| && checkpoints[i].height == height then hash else hashes[i])
  }

  // ---- Histories ----

  function Bits(h: seq<Header>): (r: seq<nat>)
    ensures |r| == |h|
  {
    seq(|h|, i requires 0 <= i < |h| => h[i].bits)
  }

  function Versions(h: seq<Header>): (r: seq<nat>)
    ensures |r| == |h|
  {
    seq(|h|, i requires 0 <= i < |h| => h[i].version)
  }

  function Timestamps(h: seq<Header>): (r: seq<nat>)
    ensures |r| == |h|
  {
    seq(|h|, i requires 0 <= i < |h| => h[i].timestamp)
  }

  /** The last count values below the last of a history: what a range of the map denotes. */
  ghost function Below(values: seq<nat>, count: nat): (r: seq<nat>)
    requires count < |values|
    ensures |r| == count
  {
    values[|values| - 1 - count..|values| - 1]
  }

  /** Sliding a window that holds the count below one height holds the count below the next. */
  lemma {:induction false} PushSlides(values: seq<nat>, next: nat, count: nat, grown: nat)
    requires |values| > 0 && count < |values| && (grown == count || grown == count + 1)
    ensures grown < |values + [next]|
    ensures Push(Below(values, count), values[|values| - 1], grown) == Below(values + [next], grown)
  {
    var window := Below(values, count);
    assert window + [values[|values| - 1]] == values[|values| - 1 - count..];
    var all := values + [next];
    if grown == count {
      assert values[|values| - 1 - count..][1..] == all[|all| - 1 - grown..|all| - 1];
    } else {
      assert values[|values| - 1 - count..] == all[|all| - 1 - grown..|all| - 1];
    }
  }

  /** The windows and self values of the last header of the history. The bits window may differ in
      length from the one that the map requests, see `BitsWindow`. */
  ghost predicate Windowed(d: Data, history: seq<Header>, c: Settings)
    requires c.interval > 0
  {
    && |history| > 0 && d.height == |history| - 1
    && SelfConforms(d, history[|history| - 1])
    && d.versions == Below(Versions(history), VersionCount(d.height, c))
    && d.timestamps == Below(Timestamps(history), TimestampCount(d.height))
    && BitsWindow(d.bits, history, c)
  }

  /** What work depends on: the windows, and the timestamp that retargeting measures from. */
  ghost predicate Conforms(d: Data, history: seq<Header>, c: Settings)
    requires c.interval > 0
  {
    && Windowed(d, history, c)
    && (c.forks.retarget && d.height > 0 ==> d.retarget == RetargetStamp(history, c))
  }

  ghost predicate SelfConforms(d: Data, header: Header) {
    d.hash == header.hash && d.bitsSelf == header.bits && d.versionSelf == header.version &&
    d.timestampSelf == header.timestamp
  }

  /** The bits window holds the last bits, as many as any scan of it can reach. */
  ghost predicate BitsWindow(bits: seq<nat>, history: seq<Header>, c: Settings)
    requires c.interval > 0 && |history| > 0
  {
    var height := |history| - 1;
    |bits| <= height && bits == Below(Bits(history), |bits|) && ScanLength(|bits|, height, c)
  }

  ghost predicate ScanLength(length: nat, height: nat, c: Settings)
    requires c.interval > 0
  {
    if c.forks.difficult || !c.forks.retarget then length == Min(height, 1)
    else if c.forks.blockStormPatch then length == Min(height, c.interval)
    else length >= RetargetDistance(height, c.interval) && (height > 0 ==> length > 0)
  }

  /** The timestamp that the retargeting of the last header measures from: of the retarget height
      below it, or with the Litecoin patch of the header before that one. */
  ghost function RetargetStamp(history: seq<Header>, c: Settings): nat
    requires c.interval > 0 && |history| > 1
  {
    var from := RetargetHeight(|history| - 1, c.interval);
    history[if c.forks.ltcTimeWarpPatch && from > 0 then from - 1 else from].timestamp
  }

  lemma {:induction false} HistoryNext(history: seq<Header>, header: Header)
    ensures Bits(history + [header]) == Bits(history) + [header.bits]
    ensures Versions(history + [header]) == Versions(history) + [header.version]
    ensures Timestamps(history + [header]) == Timestamps(history) + [header.timestamp]
  {
  }

  lemma {:induction false} PromotesBits(bits: seq<nat>, history: seq<Header>, header: Header, c: Settings)
    requires c.interval > 0 && |history| > 0 && BitsWindow(bits, history, c)
    ensures BitsWindow(Push(bits, history[|history| - 1].bits, BitsCount(|history|, c)), history + [header], c)
  {
    var height := |history|;
    HistoryNext(history, header);
    var count := BitsCount(height, c);
    var grown := if |bits| + 1 > count then |bits| else |bits| + 1;
    BitsGrow(|bits|, height, c);
    PushSlides(Bits(history), header.bits, |bits|, grown);
    hide BitsCount, Below, ScanLength;
  }

  /** The length of the bits window after promotion to the height still allows any scan. */
  lemma {:induction false} BitsGrow(length: nat, height: nat, c: Settings)
    requires c.interval > 0 && height > 0 && length < height && ScanLength(length, height - 1, c)
    ensures var grown := if length + 1 > BitsCount(height, c) then length else length + 1;
      grown <= height && ScanLength(grown, height, c)
  {
    DistanceNext(height - 1, c.interval);
    DistanceBound(height, c.interval);
  }

  /** The timestamp moved into retarget when promoting from a retarget height. */
  lemma {:induction false} PromotedStamp(d: Data, history: seq<Header>, header: Header, c: Settings)
    requires c.interval > 0 && Windowed(d, history, c)
    ensures var times := Push(d.timestamps, d.timestampSelf, TimestampCount(d.height + 1));
      d.height > 0 ==> |times| >= 2 && times[|times| - 2] == history[d.height - 1].timestamp
  {
    hide BitsWindow, VersionCount, Below, Push, Timestamps, Versions;
    HistoryNext(history, header);
    PushSlides(Timestamps(history), header.timestamp, TimestampCount(d.height), TimestampCount(d.height + 1));
    LastTime(history);
    var times := Push(d.timestamps, d.timestampSelf, TimestampCount(d.height + 1));
    if d.height > 0 {
      WindowTime(times, history + [header], |times| - 2);
    }
  }

  lemma {:induction false} LastTime(history: seq<Header>)
    requires |history| > 0
    ensures Timestamps(history)[|history| - 1] == history[|history| - 1].timestamp
  {
  }

  /** Promotion sets the timestamp at a retarget height, and otherwise both it and what it should be stay. */
  lemma {:induction false} PromotesRetarget(d: Data, history: seq<Header>, header: Header, c: Settings, signal: nat)
    requires c.interval > 0 && c.forks.retarget && Windowed(d, history, c)
    ensures var retarget, all := ToPool(d, c, signal).retarget, history + [header];
      if IsRetargetHeight(d.height, c.interval) then retarget == RetargetStamp(all, c)
      else d.height > 0 && retarget == d.retarget && RetargetStamp(all, c) == RetargetStamp(history, c)
  {
    hide BitsWindow, VersionCount, BitsCount, IsRetargetHeight, RetargetHeight, Below, Push;
    hide Timestamps, Versions, TimestampCount;
    RetargetNext(d.height, c.interval);
    PromotedStamp(d, history, header, c);
  }

  lemma {:induction false} PromotesWindows(d: Data, history: seq<Header>, header: Header, c: Settings, signal: nat)
    requires c.interval > 0 && Windowed(d, history, c)
    ensures Windowed(ToHeader(d, header, c, signal), history + [header], c)
  {
    hide BitsCount, CacheHashes, BitsWindow, Push, Below;
    HistoryNext(history, header);
    PromotesBits(d.bits, history, header, c);
    PushSlides(Versions(history), header.version, VersionCount(d.height, c), VersionCount(d.height + 1, c));
    PushSlides(Timestamps(history), header.timestamp, TimestampCount(d.height), TimestampCount(d.height + 1));
  }

  /** Promotion of a conforming state conforms at the next height. */
  lemma {:induction false} Promotes(d: Data, history: seq<Header>, header: Header, c: Settings, signal: nat)
    requires c.interval > 0 && Conforms(d, history, c)
    ensures Conforms(ToHeader(d, header, c, signal), history + [header], c)
  {
    PromotesWindows(d, history, header, c, signal);
    assert ToHeader(d, header, c, signal).retarget == ToPool(d, c, signal).retarget;
    hide Windowed, RetargetStamp, ToHeader, ToPool;
    if c.forks.retarget {
      PromotesRetarget(d, history, header, c, signal);
    }
  }

  // ---- Runs ----

  /** The state promoted through a list of headers. */
  function Run(start: Data, headers: seq<Header>, c: Settings, signal: nat): Data
    requires c.interval > 0
    decreases |headers|
  {
    if headers == [] then start
    else ToHeader(Run(start, headers[..|headers| - 1], c, signal), headers[|headers| - 1], c, signal)
  }

  lemma {:induction false} RunWindows(start: Data, history: seq<Header>, headers: seq<Header>, c: Settings, signal: nat)
    requires c.interval > 0 && Windowed(start, history, c)
    ensures Windowed(Run(start, headers, c, signal), history + headers, c)
    decreases |headers|
  {
    hide Windowed, ToHeader;
    if headers == [] {
      assert history + headers == history;
    } else {
      var front, last := headers[..|headers| - 1], headers[|headers| - 1];
      RunWindows(start, history, front, c, signal);
      PromotesWindows(Run(start, front, c, signal), history + front, last, c, signal);
      assert history + headers == (history + front) + [last];
    }
  }

  /** Every run of promotions from a conforming state conforms to the whole history. */
  lemma {:induction false} RunConforms(start: Data, history: seq<Header>, headers: seq<Header>, c: Settings,
                                       signal: nat)
    requires c.interval > 0 && Conforms(start, history, c)
    ensures Conforms(Run(start, headers, c, signal), history + headers, c)
    decreases |headers|
  {
    hide Conforms, ToHeader;
    if headers == [] {
      assert history + headers == history;
    } else {
      var front, last := headers[..|headers| - 1], headers[|headers| - 1];
      RunConforms(start, history, front, c, signal);
      Promotes(Run(start, front, c, signal), history + front, last, c, signal);
      assert history + headers == (history + front) + [last];
    }
  }

  /** The timestamp of a run is right once it has been promoted from a retarget height, and until
      then that of its start. */
  lemma {:induction false} RunRetarget(start: Data, history: seq<Header>, headers: seq<Header>, c: Settings,
                                       signal: nat)
    requires c.interval > 0 && c.forks.retarget && Windowed(start, history, c) && |history + headers| > 1
    ensures var d, all := Run(start, headers, c, signal), history + headers;
      d.retarget == if RetargetHeight(|all| - 1, c.interval) < |history| - 1 then start.retarget
                    else RetargetStamp(all, c)
    decreases |headers|
  {
    hide Windowed, RetargetStamp, ToPool, RetargetHeight;
    if headers == [] {
      RetargetBelow(|history| - 1, c.interval);
    } else {
      var front, last := headers[..|headers| - 1], headers[|headers| - 1];
      var d := Run(start, front, c, signal);
      RunWindows(start, history, front, c, signal);
      WindowedHeight(d, history + front, c);
      assert history + headers == (history + front) + [last];
      RetargetNext(d.height, c.interval);
      PromotesRetarget(d, history + front, last, c, signal);
      hide IsRetargetHeight, CacheHashes;
      if |history + front| > 1 {
        RunRetarget(start, history, front, c, signal);
      }
    }
  }

  lemma {:induction false} RetargetBelow(height: nat, interval: nat)
    requires interval > 0 && height > 0
    ensures RetargetHeight(height, interval) < height
  {
  }

  lemma {:induction false} WindowedHeight(d: Data, history: seq<Header>, c: Settings)
    requires c.interval > 0 && Windowed(d, history, c)
    ensures |history| > 0 && d.height == |history| - 1
    ensures |d.bits| <= d.height && ScanLength(|d.bits|, d.height, c)
  {
  }

  // ---- From scratch ----

  /** The hash of each checkpoint that has been reached, where it is requested. */
  ghost function MappedHashes(history: seq<Header>, c: Settings): (r: seq<nat>)
    ensures |r| == |c.checkpoints|
  {
    seq(|c.checkpoints|, i requires 0 <= i < |c.checkpoints| =>
      if Requested(i, c.forks) && c.checkpoints[i].height < |history| then history[c.checkpoints[i].height].hash
      else NULL_HASH)
  }

  /** The data that a store holds for exactly the ranges and heights of the map at the last header. */
  ghost function FromMap(history: seq<Header>, c: Settings): Data
    requires c.interval > 0 && |history| > 0
  {
    var height := |history| - 1;
    var top := history[height];
    if height == 0 then
      Data(0, top.hash, MappedHashes(history, c), top.bits, [], top.version, [], top.timestamp, 0, [])
    else
      DistanceBound(height, c.interval);
      MapBounds(height, c);
      Data(height, top.hash, MappedHashes(history, c),
           top.bits, Below(Bits(history), BitsCount(height, c)),
           top.version, Below(Versions(history), VersionCount(height, c)),
           top.timestamp,
           if c.forks.retarget then history[RetargetHeight(height, c.interval)].timestamp else 0,
           Below(Timestamps(history), TimestampCount(height)))
  }

  lemma {:induction false} MapBounds(height: nat, c: Settings)
    requires c.interval > 0 && height > 0
    ensures BitsCount(height, c) <= height && VersionCount(height, c) <= height && TimestampCount(height) <= height
  {
  }

  lemma {:induction false} FromMapWindows(history: seq<Header>, c: Settings)
    requires c.interval > 0 && |history| > 0
    ensures Windowed(FromMap(history, c), history, c)
  {
    hide MappedHashes;
    var height := |history| - 1;
    if height == 0 {
      assert Bits(history)[0..0] == [] && Versions(history)[0..0] == [] && Timestamps(history)[0..0] == [];
    } else {
      DistanceBound(height, c.interval);
      MapBounds(height, c);
      FromMapBits(history, c);
    }
  }

  lemma {:induction false} FromMapBits(history: seq<Header>, c: Settings)
    requires c.interval > 0 && |history| > 1
    ensures BitsCount(|history| - 1, c) < |history|
    ensures BitsWindow(Below(Bits(history), BitsCount(|history| - 1, c)), history, c)
  {
    DistanceBound(|history| - 1, c.interval);
    MapBounds(|history| - 1, c);
    hide Bits;
  }

  /** Whether the Litecoin patch reads another timestamp than the one the map requests. */
  ghost predicate Patched(history: seq<Header>, c: Settings)
    requires c.interval > 0 && |history| > 0
  {
    && |history| > 1 && c.forks.retarget && c.forks.ltcTimeWarpPatch
    && (var from := RetargetHeight(|history| - 1, c.interval);
        from > 0 && history[from - 1].timestamp != history[from].timestamp)
  }

  /** A state from scratch conforms exactly when the patch does not read another timestamp. */
  lemma {:induction false} FromMapConforms(history: seq<Header>, c: Settings)
    requires c.interval > 0 && |history| > 0
    ensures Conforms(FromMap(history, c), history, c) <==> !Patched(history, c)
  {
    FromMapWindows(history, c);
    hide MappedHashes, Windowed, Below;
    if |history| > 1 {
      MapBounds(|history| - 1, c);
    }
  }

  // ---- The bits of a run ----

  /** The heights above one, up to another, that are no retarget heights. */
  ghost function Others(from: nat, height: nat, interval: nat): (n: nat)
    requires interval > 0
    ensures from <= height ==> n <= height - from
    decreases height
  {
    if height <= from then 0
    else Others(from, height - 1, interval) + (if IsRetargetHeight(height, interval) then 0 else 1)
  }

  /** The length of the bits window at a height, promoted from one of a length. */
  ghost function PromotedLength(length: nat, from: nat, height: nat, c: Settings): nat
    requires c.interval > 0
  {
    if c.forks.difficult || !c.forks.retarget then Min(height, 1)
    else if c.forks.blockStormPatch then Min(height, c.interval)
    else if c.interval == 1 && length == 0 && from < height then 1
    else Max(length, Min(c.interval, length + Others(from, height, c.interval)))
  }

  /** Each promotion lets the window grow, or not, to that length. */
  lemma {:induction false} LengthGrows(length: nat, from: nat, height: nat, c: Settings)
    requires c.interval > 0 && from < height && length <= from && ScanLength(length, from, c)
    ensures var grown := PromotedLength(length, from, height - 1, c);
      && grown < height
      && PromotedLength(length, from, height, c) == if grown + 1 > BitsCount(height, c) then grown else grown + 1
  {
    hide RetargetDistance;
    DistanceBound(height, c.interval);
    if from == 0 && height > 1 && c.interval > 1 {
      FirstOther(height - 1, c.interval);
    }
  }

  lemma {:induction false} FirstOther(height: nat, interval: nat)
    requires interval > 1 && height > 0
    ensures Others(0, height, interval) > 0
  {
    if height > 1 {
      FirstOther(height - 1, interval);
    } else {
      assert RetargetDistance(1, interval) == 1;
    }
  }

  lemma {:induction false} RunLength(start: Data, history: seq<Header>, headers: seq<Header>, c: Settings, signal: nat)
    requires c.interval > 0 && Windowed(start, history, c)
    ensures |Run(start, headers, c, signal).bits| ==
            PromotedLength(|start.bits|, start.height, start.height + |headers|, c)
    decreases |headers|
  {
    hide Windowed, PromotedLength, BitsCount, ToHeader;
    if headers == [] {
      WindowedHeight(start, history, c);
      LengthStarts(|start.bits|, start.height, c);
    } else {
      var front := headers[..|headers| - 1];
      RunLength(start, history, front, c, signal);
      RunWindows(start, history, front, c, signal);
      WindowedHeight(start, history, c);
      WindowedHeight(Run(start, front, c, signal), history + front, c);
      LengthGrows(|start.bits|, start.height, start.height + |headers|, c);
      HeaderLength(Run(start, front, c, signal), headers[|headers| - 1], c, signal);
    }
  }

  lemma {:induction false} LengthStarts(length: nat, from: nat, c: Settings)
    requires c.interval > 0 && length <= from && ScanLength(length, from, c)
    ensures PromotedLength(length, from, from, c) == length
  {
  }

  lemma {:induction false} HeaderLength(d: Data, header: Header, c: Settings, signal: nat)
    requires c.interval > 0
    ensures |ToHeader(d, header, c, signal).bits| ==
            if |d.bits| + 1 > BitsCount(d.height + 1, c) then |d.bits| else |d.bits| + 1
  {
    hide BitsCount;
  }

  /** The bits of a run are the last ones of its history, of that length. */
  lemma {:induction false} RunBits(start: Data, history: seq<Header>, headers: seq<Header>, c: Settings, signal: nat)
    requires c.interval > 0 && Windowed(start, history, c)
    ensures var length := PromotedLength(|start.bits|, start.height, |history + headers| - 1, c);
      length < |history + headers| && Run(start, headers, c, signal).bits == Below(Bits(history + headers), length)
  {
    hide Run, PromotedLength, VersionCount, TimestampCount, Below, ScanLength;
    RunLength(start, history, headers, c, signal);
    RunWindows(start, history, headers, c, signal);
  }

  /** Whether a run from a window of a length has the bits that the map requests at a height. */
  ghost predicate BitsAgree(length: nat, from: nat, height: nat, c: Settings)
    requires c.interval > 0
  {
    || height == 0 || c.forks.difficult || !c.forks.retarget || c.forks.blockStormPatch
    || (var reached := length + Others(from, height, c.interval);
        if IsRetargetHeight(height, c.interval) then (c.interval == 1 && length <= 1) || reached <= 1
        else length <= c.interval && Min(height, c.interval) <= reached)
  }

  lemma {:induction false} LengthsAgree(length: nat, from: nat, height: nat, c: Settings)
    requires c.interval > 0 && 0 < height && from <= height && length <= from && ScanLength(length, from, c)
    ensures PromotedLength(length, from, height, c) == BitsCount(height, c) <==> BitsAgree(length, from, height, c)
  {
    hide RetargetDistance;
    DistanceBound(height, c.interval);
    if from == 0 && c.interval > 1 {
      FirstOther(height, c.interval);
    }
  }

  /** From genesis they differ at the retarget heights, but for the shortest intervals. */
  lemma {:induction false} GenesisAgrees(height: nat, c: Settings)
    requires c.interval > 0
    ensures BitsAgree(0, 0, height, c) <==>
            || height == 0 || c.forks.difficult || !c.forks.retarget || c.forks.blockStormPatch
            || !IsRetargetHeight(height, c.interval) || c.interval == 1 || (c.interval == 2 && height == 2)
  {
    hide RetargetDistance;
    if height > 0 {
      DistanceBound(height, c.interval);
      DistanceIsHeight(height, c.interval);
      OthersFromGenesis(height, c.interval);
    }
  }

  lemma {:induction false} OthersFromGenesis(height: nat, interval: nat)
    requires interval > 0 && height > 0
    ensures interval > 1 && height < interval ==> Others(0, height, interval) == height
    ensures interval > 1 && height == interval ==> Others(0, height, interval) == height - 1
    ensures interval > 1 && height > interval ==> Others(0, height, interval) >= interval
  {
    DistanceNext(height - 1, interval);
    DistanceIsHeight(height, interval);
    DistanceIsHeight(height - 1, interval);
    hide RetargetDistance;
    if height > 1 {
      OthersFromGenesis(height - 1, interval);
    }
  }

  lemma {:induction false} DistanceIsHeight(height: nat, interval: nat)
    requires interval > 0
    ensures height < interval ==> RetargetDistance(height, interval) == height
    ensures height == interval ==> RetargetDistance(height, interval) == 0
  {
  }

  lemma {:induction false} BitsRequested(history: seq<Header>, c: Settings)
    requires c.interval > 0 && |history| > 1
    ensures BitsCount(|history| - 1, c) < |history|
    ensures FromMap(history, c).bits == Below(Bits(history), BitsCount(|history| - 1, c))
  {
    MapBounds(|history| - 1, c);
  }

  lemma {:induction false} RunMatchesBits(start: Data, history: seq<Header>, headers: seq<Header>, c: Settings,
                                          signal: nat)
    requires c.interval > 0 && Windowed(start, history, c)
    ensures var all := history + headers;
      Run(start, headers, c, signal).bits == FromMap(all, c).bits <==>
      BitsAgree(|start.bits|, start.height, |all| - 1, c)
  {
    hide Run, MappedHashes, VersionCount, TimestampCount, Below, PromotedLength;
    RunBits(start, history, headers, c, signal);
    var all := history + headers;
    if |all| > 1 {
      BitsRequested(all, c);
      LengthsAgree(|start.bits|, start.height, |all| - 1, c);
      hide BitsCount, BitsAgree, FromMap, Bits;
    } else {
      hide Bits;
    }
  }

  // ---- The checkpoints of a run ----

  /** Each hash is that of the header promoted to at its checkpoint, or else that of the start. */
  lemma {:induction false} RunHashes(start: Data, headers: seq<Header>, c: Settings, signal: nat, i: nat)
    requires c.interval > 0 && i < |c.checkpoints| == |start.checkpointHashes|
    ensures var d, at := Run(start, headers, c, signal), c.checkpoints[i].height;
      && d.height == start.height + |headers| && |d.checkpointHashes| == |c.checkpoints|
      && d.checkpointHashes[i] ==
         if start.height < at <= d.height then headers[at - start.height - 1].hash else start.checkpointHashes[i]
    decreases |headers|
  {
    hide Push, BitsCount, VersionCount, TimestampCount, IsRetargetHeight;
    if headers != [] {
      RunHashes(start, headers[..|headers| - 1], c, signal, i);
    }
  }

  /** Whether a run from the map has the hash of a checkpoint that the map requests. */
  ghost predicate HashAgrees(i: nat, from: nat, history: seq<Header>, c: Settings)
    requires i < |c.checkpoints|
  {
    var at := c.checkpoints[i].height;
    Requested(i, c.forks) || at <= from || |history| <= at || history[at].hash == NULL_HASH
  }

  lemma {:induction false} RunMatchesHash(history: seq<Header>, headers: seq<Header>, c: Settings, signal: nat, i: nat)
    requires c.interval > 0 && |history| > 0 && i < |c.checkpoints|
    ensures var d, all := Run(FromMap(history, c), headers, c, signal), history + headers;
      && |d.checkpointHashes| == |FromMap(all, c).checkpointHashes| == |c.checkpoints|
      && (d.checkpointHashes[i] == FromMap(all, c).checkpointHashes[i] <==> HashAgrees(i, |history| - 1, all, c))
  {
    HashesMapped(history, c);
    HashesMapped(history + headers, c);
    hide Run, FromMap, Requested;
    RunHashes(FromMap(history, c), headers, c, signal, i);
  }

  lemma {:induction false} HashesMapped(history: seq<Header>, c: Settings)
    requires c.interval > 0 && |history| > 0
    ensures FromMap(history, c).height == |history| - 1
    ensures FromMap(history, c).checkpointHashes == MappedHashes(history, c)
  {
  }

  // ---- A run against the map ----

  /** What a run to the last header shares with the map there, if it starts from the map at a height. */
  ghost predicate Matches(d: Data, from: nat, history: seq<Header>, c: Settings)
    requires c.interval > 0 && from < |history|
  {
    var mapped, height := FromMap(history, c), |history| - 1;
    && d.height == mapped.height && d.hash == mapped.hash && d.bitsSelf == mapped.bitsSelf
    && d.versionSelf == mapped.versionSelf && d.timestampSelf == mapped.timestampSelf
    && d.versions == mapped.versions && d.timestamps == mapped.timestamps
    && (height > 0 && c.forks.retarget ==>
          (d.retarget == mapped.retarget <==>
           !Patched(history, c) || RetargetHeight(height, c.interval) < from))
    && (d.bits == mapped.bits <==> BitsAgree(StartLength(from, c), from, height, c))
    && |d.checkpointHashes| == |mapped.checkpointHashes| == |c.checkpoints|
    && (forall i :: 0 <= i < |c.checkpoints| ==>
          (d.checkpointHashes[i] == mapped.checkpointHashes[i] <==> HashAgrees(i, from, history, c)))
  }

  /** The bits that the map requests at a height. */
  function StartLength(height: nat, c: Settings): nat
    requires c.interval > 0
  {
    if height == 0 then 0 else BitsCount(height, c)
  }

  lemma {:induction false} StartsWith(history: seq<Header>, c: Settings)
    requires c.interval > 0 && |history| > 0
    ensures FromMap(history, c).height == |history| - 1
    ensures |FromMap(history, c).bits| == StartLength(|history| - 1, c)
  {
    if |history| > 1 {
      BitsRequested(history, c);
    }
  }

  lemma {:induction false} WindowsMatch(d: Data, history: seq<Header>, c: Settings)
    requires c.interval > 0 && Windowed(d, history, c)
    ensures var mapped := FromMap(history, c);
      && d.height == mapped.height && d.hash == mapped.hash && d.bitsSelf == mapped.bitsSelf
      && d.versionSelf == mapped.versionSelf && d.timestampSelf == mapped.timestampSelf
      && d.versions == mapped.versions && d.timestamps == mapped.timestamps
  {
    FromMapWindows(history, c);
    hide FromMap, BitsWindow;
  }

  lemma {:induction false} RunMatchesRetarget(history: seq<Header>, headers: seq<Header>, c: Settings, signal: nat)
    requires c.interval > 0 && c.forks.retarget && |history| > 0 && |history + headers| > 1
    ensures var d, all := Run(FromMap(history, c), headers, c, signal), history + headers;
      d.retarget == FromMap(all, c).retarget <==>
      !Patched(all, c) || RetargetHeight(|all| - 1, c.interval) < |history| - 1
  {
    var all := history + headers;
    FromMapWindows(history, c);
    hide Run, Windowed;
    RunRetarget(FromMap(history, c), history, headers, c, signal);
    RetargetRequested(all, c);
    if RetargetHeight(|all| - 1, c.interval) < |history| - 1 {
      RetargetRequested(history, c);
      SameRetarget(|history| - 1, |all| - 1, c.interval);
    }
    hide FromMap, RetargetHeight;
  }

  lemma {:induction false} RetargetRequested(history: seq<Header>, c: Settings)
    requires c.interval > 0 && c.forks.retarget && |history| > 1
    ensures FromMap(history, c).retarget == history[RetargetHeight(|history| - 1, c.interval)].timestamp
  {
  }

  /** Heights without a retarget height between them have one retarget height below them. */
  lemma {:induction false} SameRetarget(from: nat, height: nat, interval: nat)
    requires interval > 0 && 0 < from <= height && RetargetHeight(height, interval) < from
    ensures RetargetHeight(height, interval) == RetargetHeight(from, interval)
    decreases height
  {
    hide RetargetHeight, IsRetargetHeight;
    if height > from {
      RetargetNext(height - 1, interval);
      SameRetarget(from, height - 1, interval);
    }
  }

  /** After any run from a state of the map, at any height, each part equals what the map requests at
      the height reached exactly under its condition. */
  lemma {:induction false} RunMatchesMap(history: seq<Header>, headers: seq<Header>, c: Settings, signal: nat)
    requires c.interval > 0 && |history| > 0
    ensures Matches(Run(FromMap(history, c), headers, c, signal), |history| - 1, history + headers, c)
  {
    hide Windowed, Run, FromMap, BitsAgree, HashAgrees, Patched, RetargetHeight;
    var start, all := FromMap(history, c), history + headers;
    var d := Run(start, headers, c, signal);
    FromMapWindows(history, c);
    RunWindows(start, history, headers, c, signal);
    WindowsMatch(d, all, c);
    StartsWith(history, c);
    RunMatchesBits(start, history, headers, c, signal);
    if |all| > 1 && c.forks.retarget {
      RunMatchesRetarget(history, headers, c, signal);
    }
    HashesMapped(all, c);
    RunHashCount(start, headers, c, signal);
    HashesMapped(history, c);
    forall i | 0 <= i < |c.checkpoints|
      ensures d.checkpointHashes[i] == FromMap(all, c).checkpointHashes[i] <==> HashAgrees(i, |history| - 1, all, c)
    {
      RunMatchesHash(history, headers, c, signal, i);
    }
  }

  lemma {:induction false} RunHashCount(start: Data, headers: seq<Header>, c: Settings, signal: nat)
    requires c.interval > 0
    ensures |Run(start, headers, c, signal).checkpointHashes| == |start.checkpointHashes|
    decreases |headers|
  {
    if headers != [] {
      RunHashCount(start, headers[..|headers| - 1], c, signal);
    }
  }

  /** At the first retarget height a run holds more bits than the map requests. */
  lemma {:induction false} BitsDisagree(c: Settings, signal: nat)
    requires c.interval == 3 && c.forks.retarget && !c.forks.difficult && !c.forks.blockStormPatch
    ensures var h := [Header(1, 4, 0, 0), Header(2, 5, 0, 0), Header(3, 6, 0, 0), Header(4, 7, 0, 0)];
      Run(FromMap(h[..1], c), h[1..], c, signal).bits == [5, 6] && FromMap(h, c).bits == [6]
  {
    hide Run, FromMap, Windowed;
    var h := [Header(1, 4, 0, 0), Header(2, 5, 0, 0), Header(3, 6, 0, 0), Header(4, 7, 0, 0)];
    assert h == h[..1] + h[1..];
    FromMapWindows(h[..1], c);
    StartsWith(h[..1], c);
    RunBits(FromMap(h[..1], c), h[..1], h[1..], c, signal);
    OthersFromGenesis(3, 3);
    BitsRequested(h, c);
    assert Bits(h) == [4, 5, 6, 7];
  }

  /** With the Litecoin patch a run and the map can read different retarget timestamps. */
  lemma {:induction false} PatchDisagrees(c: Settings, signal: nat)
    requires c.interval == 1 && c.forks.retarget && c.forks.ltcTimeWarpPatch
    ensures var h := [Header(1, 0, 0, 1), Header(2, 0, 0, 2), Header(3, 0, 0, 3)];
      Run(FromMap(h[..1], c), h[1..], c, signal).retarget != FromMap(h, c).retarget
  {
    hide Run, FromMap;
    var h := [Header(1, 0, 0, 1), Header(2, 0, 0, 2), Header(3, 0, 0, 3)];
    assert h == h[..1] + h[1..];
    RunMatchesRetarget(h[..1], h[1..], c, signal);
    assert Patched(h, c);
  }

  /** Without the forks of a checkpoint a run holds its hash, and the map does not request it. */
  lemma {:induction false} HashesDisagree(c: Settings, signal: nat)
    requires c.interval > 0 && |c.checkpoints| == 4 && c.checkpoints[1].height == 1
    requires !c.forks.bip68 && !c.forks.bip112 && !c.forks.bip113
    ensures var h := [Header(5, 0, 0, 0), Header(6, 0, 0, 0)];
      var d, mapped := Run(FromMap(h[..1], c), h[1..], c, signal), FromMap(h, c);
      && |d.checkpointHashes| == |mapped.checkpointHashes| == 4
      && d.checkpointHashes[1] == 6 && mapped.checkpointHashes[1] == NULL_HASH
  {
    hide Run, FromMap;
    var h := [Header(5, 0, 0, 0), Header(6, 0, 0, 0)];
    HashesMapped(h[..1], c);
    HashesMapped(h, c);
    RunHashes(FromMap(h[..1], c), h[1..], c, signal, 1);
  }

  // ---- Work required ----

  /** Where a scan of bits stops: a retarget height, or bits other than the limit. */
  predicate IsRetargetOrNonLimit(height: nat, bits: nat, c: Settings)
    requires c.interval > 0
  {
    bits != c.limit || IsRetargetHeight(height, c.interval)
  }

  /** The height nearest below at which a scan of all preceding bits stops. */
  ghost function Anchor(history: seq<Header>, height: nat, c: Settings): (g: nat)
    requires c.interval > 0 && 0 < height <= |history|
    ensures g < height
  {
    if height == 1 || IsRetargetOrNonLimit(height - 1, history[height - 1].bits, c) then height - 1
    else Anchor(history, height - 1, c)
  }

  lemma {:induction false} AnchorNearest(history: seq<Header>, height: nat, c: Settings, k: nat)
    requires c.interval > 0 && k < height <= |history|
    ensures IsRetargetOrNonLimit(Anchor(history, height, c), history[Anchor(history, height, c)].bits, c)
    ensures IsRetargetOrNonLimit(k, history[k].bits, c) ==> k <= Anchor(history, height, c)
    decreases height
  {
    if height == 1 {
    } else if !IsRetargetOrNonLimit(height - 1, history[height - 1].bits, c) {
      AnchorNearest(history, height - 1, c, if k < height - 1 then k else 0);
    }
  }

  lemma {:induction false} RetargetIsRetarget(height: nat, interval: nat)
    requires interval > 0 && height > 0
    ensures IsRetargetHeight(RetargetHeight(height, interval), interval)
  {
    if height > interval {
      RetargetIsRetarget(height - interval, interval);
    }
  }

  /** The anchor is no farther back than the nearest retarget height. */
  lemma {:induction false} AnchorReached(history: seq<Header>, height: nat, c: Settings)
    requires c.interval > 0 && 0 < height <= |history|
    ensures RetargetHeight(height, c.interval) <= Anchor(history, height, c)
  {
    RetargetIsRetarget(height, c.interval);
    AnchorNearest(history, height, c, RetargetHeight(height, c.interval));
  }

  lemma {:induction false} AnchorSkips(history: seq<Header>, height: nat, c: Settings)
    requires c.interval > 0 && 0 < height <= |history|
    ensures IsRetargetOrNonLimit(height - 1, history[height - 1].bits, c) ==>
              Anchor(history, height, c) == height - 1
    ensures !IsRetargetOrNonLimit(height - 1, history[height - 1].bits, c) ==>
              height > 1 && Anchor(history, height, c) == Anchor(history, height - 1, c)
  {
  }

  lemma {:induction false} WindowBit(bits: seq<nat>, history: seq<Header>, i: nat)
    requires i < |bits| < |history| && bits == Below(Bits(history), |bits|)
    ensures bits[i] == history[|history| - 1 - (|bits| - i)].bits
  {
  }

  /** The reverse iteration of the window: it finds the bits of the anchor, or ends first. */
  method ScanBits(bits: seq<nat>, top: nat, c: Settings, ghost history: seq<Header>)
    returns (found: bool, bit: nat)
    requires c.interval > 0 && |history| == top + 1 && |bits| <= top && bits == Below(Bits(history), |bits|)
    ensures found <==> top > 0 && top - Anchor(history, top, c) <= |bits|
    ensures found ==> bit == history[Anchor(history, top, c)].bits
  {
    hide IsRetargetOrNonLimit, Anchor, Below, Bits;
    var height: nat, i: nat := top, |bits|;
    while i > 0
      invariant i <= |bits| && height == top - (|bits| - i)
      invariant height > 0 ==> Anchor(history, top, c) == Anchor(history, height, c)
      invariant top > 0 ==> height > 0
    {
      i := i - 1;
      height := height - 1;
      WindowBit(bits, history, i);
      AnchorSkips(history, height + 1, c);
      if IsRetargetOrNonLimit(height, bits[i], c) {
        return true, bits[i];
      }
    }
    return false, 0;
  }

  /** The time limit after which a minimum difficulty block is allowed. */
  function EasyTime(previous: nat, spacing: nat): nat {
    Min(MAX_UINT32, previous + (2 * spacing) % (MAX_UINT32 + 1))
  }

  /** Between retarget heights the test network scans for the last bits that are not a minimum. The
      scan always stops within its window. */
  method EasyWorkRequired(d: Data, c: Settings, ghost history: seq<Header>) returns (work: nat)
    requires c.interval > 0 && Conforms(d, history, c) && d.height > 0
    requires c.forks.retarget && !c.forks.difficult && !IsRetargetHeight(d.height, c.interval)
    ensures work == EasyWork(history, c)
  {
    hide RetargetStamp, RetargetDistance, Anchor;
    Highest(d, history, c);
    hide Below, EasyTime;
    if d.timestampSelf > EasyTime(d.timestamps[|d.timestamps| - 1], c.spacing) {
      return c.limit;
    }
    var found, bit := ScanBits(d.bits, d.height, c, history);
    AnchorReached(history, d.height, c);
    if !found {
      assert false;
    }
    return bit;
  }

  /** The bits that a retarget scales. */
  method WorkRequiredRetargetBits(d: Data, c: Settings, ghost history: seq<Header>) returns (bits: nat)
    requires c.interval > 0 && Conforms(d, history, c) && d.height > 0
    requires c.forks.retarget && IsRetargetHeight(d.height, c.interval)
    ensures bits == RetargetBits(history, c)
  {
    hide RetargetStamp, RetargetDistance, Anchor;
    Highest(d, history, c);
    hide Below;
    if c.forks.blockStormPatch {
      var found, bit := ScanBits(d.bits, d.height, c, history);
      AnchorReached(history, d.height, c);
      if found {
        return bit;
      }
    }
    return d.bits[|d.bits| - 1];
  }

  ghost function EasyWork(history: seq<Header>, c: Settings): nat
    requires c.interval > 0 && |history| > 1
  {
    var height := |history| - 1;
    if history[height].timestamp > EasyTime(history[height - 1].timestamp, c.spacing) then c.limit
    else history[Anchor(history, height, c)].bits
  }

  ghost function RetargetBits(history: seq<Header>, c: Settings): nat
    requires c.interval > 0 && |history| > 1
  {
    var height := |history| - 1;
    if c.forks.blockStormPatch && !c.forks.difficult then history[Anchor(history, height, c)].bits
    else history[height - 1].bits
  }

  function Limit(value: nat, minimum: nat, maximum: nat): nat {
    if value < minimum then minimum else if value > maximum then maximum else value
  }

  /** The work that a header's whole history requires of it. `invalid` tells bits that expand to
      zero, and `scaled` is the product of a target and a timespan in compact form. */
  ghost function Required(history: seq<Header>, c: Settings, invalid: nat -> bool, scaled: (nat, nat) -> nat): nat
    requires c.interval > 0 && |history| > 0
  {
    var height := |history| - 1;
    if height == 0 || invalid(history[height - 1].bits) then 0
    else if !c.forks.retarget then history[height - 1].bits
    else if IsRetargetHeight(height, c.interval) then
      var timespan := FlooredSubtract(history[height - 1].timestamp, RetargetStamp(history, c));
      scaled(RetargetBits(history, c), Limit(timespan, c.minimumTimespan, c.maximumTimespan))
    else if !c.forks.difficult then EasyWork(history, c)
    else history[height - 1].bits
  }

  /** The most recent values of conforming windows are those of the parent. */
  lemma {:induction false} Highest(d: Data, history: seq<Header>, c: Settings)
    requires c.interval > 0 && Conforms(d, history, c) && d.height > 0
    ensures |d.bits| > 0 && d.bits[|d.bits| - 1] == history[d.height - 1].bits
    ensures |d.timestamps| > 0 && d.timestamps[|d.timestamps| - 1] == history[d.height - 1].timestamp
  {
    hide RetargetStamp, RetargetDistance, VersionCount, Below, Bits, Timestamps, Versions;
    WindowBit(d.bits, history, |d.bits| - 1);
    WindowTime(d.timestamps, history, |d.timestamps| - 1);
  }

  lemma {:induction false} WindowTime(times: seq<nat>, history: seq<Header>, i: nat)
    requires i < |times| < |history| && times == Below(Timestamps(history), |times|)
    ensures times[i] == history[|history| - 1 - (|times| - i)].timestamp
  {
  }

  /** Any state that conforms, promoted or from scratch, requires the work of its whole history. */
  method WorkRequired(d: Data, c: Settings, invalid: nat -> bool, scaled: (nat, nat) -> nat,
                      ghost history: seq<Header>) returns (work: nat)
    requires c.interval > 0 && Conforms(d, history, c)
    ensures work == Required(history, c, invalid, scaled)
  {
    hide RetargetStamp, BitsWindow, EasyWork, RetargetBits, Below;
    if d.height == 0 {
      return 0;
    }
    Highest(d, history, c);
    var high := d.bits[|d.bits| - 1];
    if invalid(high) {
      return 0;
    }
    if !c.forks.retarget {
      return high;
    }
    if IsRetargetHeight(d.height, c.interval) {
      var bits := WorkRequiredRetargetBits(d, c, history);
      var timespan := FlooredSubtract(d.timestamps[|d.timestamps| - 1], d.retarget);
      return scaled(bits, Limit(timespan, c.minimumTimespan, c.maximumTimespan));
    }
    if !c.forks.difficult {
      work := EasyWorkRequired(d, c, history);
      return;
    }
    return high;
  }

  // ---- The same in heights and timestamps ----

  /** The last height below another that is a multiple of the interval or has other bits than the limit. */
  ghost predicate IsAnchor(history: seq<Header>, height: nat, c: Settings, g: nat)
    requires c.interval > 0 && height <= |history|
  {
    && g < height && (g % c.interval == 0 || history[g].bits != c.limit)
    && forall k: nat :: g < k < height ==> k % c.interval != 0 && history[k].bits == c.limit
  }

  lemma {:induction false} AnchorIff(history: seq<Header>, height: nat, c: Settings, g: nat)
    requires c.interval > 0 && 0 < height <= |history|
    ensures IsAnchor(history, height, c, g) <==> g == Anchor(history, height, c)
  {
    hide Anchor, RetargetDistance;
    var anchor := Anchor(history, height, c);
    AnchorNearest(history, height, c, anchor);
    DistanceIs(anchor, c.interval);
    if IsAnchor(history, height, c, g) {
      AnchorNearest(history, height, c, g);
      DistanceIs(g, c.interval);
    }
    forall k: nat | anchor < k < height
      ensures k % c.interval != 0 && history[k].bits == c.limit
    {
      AnchorNearest(history, height, c, k);
      DistanceIs(k, c.interval);
    }
  }

  /** The time between two timestamps, within bounds. */
  ghost function Elapsed(from: nat, to: nat, minimum: nat, maximum: nat): nat {
    if to < from + minimum then minimum else if to > from + maximum then maximum else to - from
  }

  lemma {:induction false} LimitIs(from: nat, to: nat, minimum: nat, maximum: nat)
    requires minimum <= maximum
    ensures Limit(FlooredSubtract(to, from), minimum, maximum) == Elapsed(from, to, minimum, maximum)
    ensures minimum <= Elapsed(from, to, minimum, maximum) <= maximum
  {
  }

  /** The work that a header requires: after a multiple of the interval the bits are scaled by the time that
      it took; the test network has the minimum after a late block, and otherwise the bits of the anchor. */
  lemma {:induction false} RequiredIs(history: seq<Header>, c: Settings, invalid: nat -> bool,
                                      scaled: (nat, nat) -> nat, g: nat)
    requires c.interval > 0 && |history| > 1 && c.minimumTimespan <= c.maximumTimespan
    requires IsAnchor(history, |history| - 1, c, g) && !invalid(history[|history| - 2].bits)
    ensures var height := |history| - 1;
      var previous, top := history[height - 1], history[height];
      Required(history, c, invalid, scaled) ==
      if !c.forks.retarget then previous.bits
      else if height % c.interval == 0 then
        assert height >= c.interval by { AtLeastInterval(height, c.interval); }
        var first := height - c.interval;
        var from := if c.forks.ltcTimeWarpPatch && first > 0 then first - 1 else first;
        scaled(if c.forks.blockStormPatch && !c.forks.difficult then history[g].bits else previous.bits,
               Elapsed(history[from].timestamp, previous.timestamp, c.minimumTimespan, c.maximumTimespan))
      else if c.forks.difficult then previous.bits
      else if top.timestamp > 0xffff_ffff || top.timestamp > previous.timestamp + 2 * c.spacing % 0x1_0000_0000
        then c.limit
      else history[g].bits
  {
    hide Anchor, RetargetDistance, Limit;
    var height := |history| - 1;
    AnchorIff(history, height, c, g);
    DistanceIs(height, c.interval);
    DistanceBound(height, c.interval);
    var first := if height % c.interval == 0 then height - c.interval else 0;
    var from := if c.forks.ltcTimeWarpPatch && first > 0 then first - 1 else first;
    LimitIs(history[from].timestamp, history[height - 1].timestamp, c.minimumTimespan, c.maximumTimespan);
  }

  lemma {:induction false} AtLeastInterval(height: nat, interval: nat)
    requires interval > 0 && height > 0 && height % interval == 0
    ensures height >= interval
  {
    DistanceIs(height, interval);
    DistanceBound(height, interval);
  }

  // ---- What the map requests, in heights ----

  /** Whether values are those of so many headers below the last. */
  ghost predicate AreBelow(values: seq<nat>, all: seq<nat>, count: nat) {
    && |values| == count < |all|
    && forall i :: 0 <= i < count ==> values[i] == all[|all| - 1 - count + i]
  }

  lemma {:induction false} BelowIs(all: seq<nat>, count: nat)
    requires count < |all|
    ensures AreBelow(Below(all, count), all, count)
  {
  }

  /** The windows at a height above genesis: eleven timestamps, the sample of versions for as long as it
      is needed, and the bits of an interval where a scan can need them. */
  lemma {:induction false} MapIs(history: seq<Header>, c: Settings)
    requires c.interval > 0 && |history| > 1
    ensures var d, height, f := FromMap(history, c), |history| - 1, c.forks;
      && AreBelow(d.timestamps, Timestamps(history), if height < 11 then height else 11)
      && AreBelow(d.versions, Versions(history),
                  if f.bip90 || !(f.bip34 || f.bip65 || f.bip66) then 0
                  else if height < c.sample then height else c.sample)
      && AreBelow(d.bits, Bits(history),
                  if f.difficult || !f.retarget || (!f.blockStormPatch && height % c.interval == 0) then 1
                  else if height < c.interval then height else c.interval)
  {
    var height := |history| - 1;
    MapBounds(height, c);
    DistanceIs(height, c.interval);
    hide Below, Bits, Versions, Timestamps, RetargetDistance, RetargetHeight, MappedHashes, AreBelow;
    BelowIs(Timestamps(history), TimestampCount(height));
    BelowIs(Versions(history), VersionCount(height, c));
    BelowIs(Bits(history), BitsCount(height, c));
  }

  /** The timestamp is that of the last multiple of the interval below, and the hashes are those of the
      checkpoints that are reached, each where one of its forks is configured. */
  lemma {:induction false} MapReads(history: seq<Header>, c: Settings)
    requires c.interval > 0 && |history| > 1 && |c.checkpoints| == 4
    ensures var d, height, f := FromMap(history, c), |history| - 1, c.forks;
      && (f.retarget ==> exists at: nat :: at < height <= at + c.interval && at % c.interval == 0 &&
                           d.retarget == history[at].timestamp)
      && d.checkpointHashes == [MapHash(history, c.checkpoints[0].height, f.bip30 && f.bip30Deactivate),
                                MapHash(history, c.checkpoints[1].height, f.bip68 || f.bip112 || f.bip113),
                                MapHash(history, c.checkpoints[2].height, f.bip141 || f.bip143 || f.bip147),
                                MapHash(history, c.checkpoints[3].height, f.bip341 || f.bip342)]
  {
    var height := |history| - 1;
    HashesMapped(history, c);
    if c.forks.retarget {
      RetargetRequested(history, c);
      RetargetIsRetarget(height, c.interval);
      DistanceIs(RetargetHeight(height, c.interval), c.interval);
      DistanceBound(height, c.interval);
      assert height <= RetargetHeight(height, c.interval) + c.interval;
    }
    hide FromMap;
  }

  ghost function MapHash(history: seq<Header>, height: nat, requested: bool): nat {
    if requested && height < |history| then history[height].hash else 0
  }
}
