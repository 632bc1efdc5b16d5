/** The rules that a chain state activates, of a state promoted from headers and of one from scratch. */
module Activation {
  import opened Words
  import opened ChainState

  /** What activates rules besides the configured forks and the checkpoints. `exceptions` are the blocks
      that bip30 exempts. */
  datatype Schedule = Schedule(bip16Time: nat, activationThreshold: nat, enforcementThreshold: nat, bip34Version: nat,
                               bip65Version: nat, bip66Version: nat, bip90Bip34Height: nat, bip90Bip65Height: nat,
                               bip90Bip66Height: nat, bip30ReactivateHeight: nat, exceptions: seq<Checkpoint>)

  /** The active rules that are not of the configuration alone. Those of one bip9 bit go together. */
  datatype Rules = Rules(bip16: bool, bip30: bool, bip34: bool, bip65: bool, bip66: bool, bit0: bool, bit1: bool,
                         bit2: bool, minimumVersion: nat)

  /** A word as a signed number. */
  function Signed(word: nat): int {
    if word < 0x8000_0000 then word else word - POW32
  }

  /** The count of versions that are, as signed numbers, not below another. */
  function CountAtLeast(versions: seq<nat>, version: nat): nat {
    if versions == [] then 0
    else CountAtLeast(versions[1..], version) + (if Signed(versions[0]) >= Signed(version) then 1 else 0)
  }

  /** Whether the hash cached for a checkpoint is the one configured. */
  predicate Reached(d: Data, i: nat, c: Settings)
    requires i < |c.checkpoints| == |d.checkpointHashes|
  {
    d.checkpointHashes[i] == c.checkpoints[i].hash
  }

  function Activate(d: Data, c: Settings, s: Schedule): Rules
    requires |c.checkpoints| == |d.checkpointHashes| == 4
  {
    var counts := version => CountAtLeast(d.versions, version);
    var active := version =>
      counts(version) >= s.activationThreshold && Signed(d.versionSelf) >= Signed(version);
    var enforced := version => counts(version) >= s.enforcementThreshold;
    var frozen := height => c.forks.bip90 && d.height >= height;
    var minimum :=
      if frozen(s.bip90Bip65Height) || enforced(s.bip65Version) then s.bip65Version
      else if frozen(s.bip90Bip66Height) || enforced(s.bip66Version) then s.bip66Version
      else if frozen(s.bip90Bip34Height) || enforced(s.bip34Version) then s.bip34Version
      else 0;
    var deactivated := c.forks.bip30 && c.forks.bip30Deactivate && Reached(d, 0, c);
    var reactivated := deactivated && c.forks.bip30Reactivate && d.height >= s.bip30ReactivateHeight;
    Rules(bip16 := c.forks.bip16 && d.timestampSelf >= s.bip16Time,
          bip30 := c.forks.bip30 && (!deactivated || reactivated) && Checkpoint(d.hash, d.height) !in s.exceptions,
          bip34 := frozen(s.bip90Bip34Height) || active(s.bip34Version),
          bip65 := frozen(s.bip90Bip65Height) || active(s.bip65Version),
          bip66 := frozen(s.bip90Bip66Height) || active(s.bip66Version),
          bit0 := Reached(d, 1, c), bit1 := Reached(d, 2, c), bit2 := Reached(d, 3, c),
          minimumVersion := minimum)
  }

  /** Whether a run from the map and the map activate the rules of a checkpoint alike. */
  ghost predicate RuleAgrees(i: nat, from: nat, history: seq<Header>, c: Settings)
    requires i < |c.checkpoints|
  {
    var checkpoint := c.checkpoints[i];
    || Requested(i, c.forks) || checkpoint.height <= from || |history| <= checkpoint.height
    || (history[checkpoint.height].hash == checkpoint.hash <==> checkpoint.hash == NULL_HASH)
  }

  lemma {:induction false} RunMatchesRule(history: seq<Header>, headers: seq<Header>, c: Settings, signal: nat, i: nat)
    requires c.interval > 0 && |history| > 0 && i < |c.checkpoints|
    ensures var d, all := Run(FromMap(history, c), headers, c, signal), history + headers;
      && |d.checkpointHashes| == |FromMap(all, c).checkpointHashes| == |c.checkpoints|
      && ((Reached(d, i, c) <==> Reached(FromMap(all, c), i, c)) <==> RuleAgrees(i, |history| - 1, all, c))
      && (Requested(i, c.forks) ==> d.checkpointHashes[i] == FromMap(all, c).checkpointHashes[i])
  {
    HashesMapped(history, c);
    HashesMapped(history + headers, c);
    hide Run, FromMap, Requested;
    RunHashes(FromMap(history, c), headers, c, signal, i);
  }

  /** After any run from a state of the map the rules are those of the map at the height reached if and
      only if no checkpoint that the map does not request, for want of its forks, has decided any. */
  lemma {:induction false} RulesAgree(history: seq<Header>, headers: seq<Header>, c: Settings, s: Schedule, signal: nat)
    requires c.interval > 0 && |history| > 0 && |c.checkpoints| == 4
    ensures var d, all := Run(FromMap(history, c), headers, c, signal), history + headers;
      && |d.checkpointHashes| == |FromMap(all, c).checkpointHashes| == 4
      && (Activate(d, c, s) == Activate(FromMap(all, c), c, s) <==>
          && RuleAgrees(1, |history| - 1, all, c) && RuleAgrees(2, |history| - 1, all, c)
          && RuleAgrees(3, |history| - 1, all, c))
  {
    hide Run, FromMap, RuleAgrees, BitsAgree, HashAgrees, Patched;
    var all := history + headers;
    RunMatchesMap(history, headers, c, signal);
    RunMatchesRule(history, headers, c, signal, 0);
    RunMatchesRule(history, headers, c, signal, 1);
    RunMatchesRule(history, headers, c, signal, 2);
    RunMatchesRule(history, headers, c, signal, 3);
    var d, mapped := Run(FromMap(history, c), headers, c, signal), FromMap(all, c);
    assert d.versions == mapped.versions;
  }

  /** Without the forks of a bip9 bit a run activates its rules at the checkpoint, and the map does not. */
  lemma {:induction false} RulesDisagree(c: Settings, s: Schedule, signal: nat)
    requires c.interval > 0 && |c.checkpoints| == 4 && c.checkpoints[1] == Checkpoint(6, 1)
    requires !c.forks.bip68 && !c.forks.bip112 && !c.forks.bip113
    ensures var h := [Header(5, 0, 0, 0), Header(6, 0, 0, 0)];
      var d, mapped := Run(FromMap(h[..1], c), h[1..], c, signal), FromMap(h, c);
      && |d.checkpointHashes| == |mapped.checkpointHashes| == 4
      && Activate(d, c, s).bit0 && !Activate(mapped, c, s).bit0
  {
    hide Run, FromMap, CountAtLeast;
    HashesDisagree(c, signal);
  }

  /** The two ways to the state of a header activate the rules of a checkpoint alike, unless it is at
      this height and exactly one of the header's hash and the null hash is the one configured. */
  lemma {:induction false} BlockMatchesRule(d: Data, header: Header, c: Settings, signal: nat, i: nat)
    requires c.interval > 0 && i < |c.checkpoints| == |d.checkpointHashes|
    ensures var block, next := ToBlock(ToPool(d, c, signal), header, c), ToHeader(d, header, c, signal);
      && |block.checkpointHashes| == |next.checkpointHashes| == |c.checkpoints|
      && ((Reached(block, i, c) <==> Reached(next, i, c)) <==>
          || c.checkpoints[i].height != d.height + 1
          || (header.hash == c.checkpoints[i].hash <==> c.checkpoints[i].hash == NULL_HASH))
  {
    hide Push, BitsCount, VersionCount, TimestampCount, IsRetargetHeight;
  }

  /** At the checkpoint itself a header activates the rules of its bit, and its block does not. */
  lemma {:induction false} BlockForgets(d: Data, c: Settings, s: Schedule, signal: nat)
    requires c.interval > 0 && |c.checkpoints| == |d.checkpointHashes| == 4 && d.height == 0
    requires c.checkpoints[1] == Checkpoint(6, 1)
    ensures var header := Header(6, 0, 0, 0);
      var block, next := ToBlock(ToPool(d, c, signal), header, c), ToHeader(d, header, c, signal);
      && |block.checkpointHashes| == |next.checkpointHashes| == 4
      && !Activate(block, c, s).bit0 && Activate(next, c, s).bit0
  {
    hide Push, BitsCount, VersionCount, TimestampCount, IsRetargetHeight, CountAtLeast;
  }

  // ---- The rules by numbers ----

  /** Order as signed numbers of 32 bits. */
  ghost predicate AtLeastSigned(a: nat, b: nat) {
    (a + 0x8000_0000) % 0x1_0000_0000 >= (b + 0x8000_0000) % 0x1_0000_0000
  }

  /** The places of versions that are not below another. */
  ghost function Places(versions: seq<nat>, version: nat): set<nat> {
    set i | 0 <= i < |versions| && AtLeastSigned(versions[i], version)
  }

  lemma {:induction false} SignedOrder(a: nat, b: nat)
    requires a < POW32 && b < POW32
    ensures Signed(a) >= Signed(b) <==> AtLeastSigned(a, b)
  {
  }

  lemma {:induction false} CountIs(versions: seq<nat>, version: nat)
    requires version < POW32 && forall i :: 0 <= i < |versions| ==> versions[i] < POW32
    ensures CountAtLeast(versions, version) == |Places(versions, version)|
    decreases |versions|
  {
    hide Signed, AtLeastSigned;
    if versions != [] {
      CountIs(versions[1..], version);
      SignedOrder(versions[0], version);
      PlacesNext(versions, version);
    }
  }

  lemma {:induction false} PlacesNext(versions: seq<nat>, version: nat)
    requires versions != []
    ensures |Places(versions, version)| ==
            |Places(versions[1..], version)| + (if AtLeastSigned(versions[0], version) then 1 else 0)
  {
    hide AtLeastSigned;
    var rest := Places(versions[1..], version);
    var moved := Moved(rest);
    MovedSize(rest);
    assert Places(versions, version) == moved + (if AtLeastSigned(versions[0], version) then {0} else {}) by {
      forall i | i in Places(versions, version) && i != 0
        ensures i in moved
      {
        assert i - 1 in rest;
      }
    }
  }

  ghost function Moved(s: set<nat>): set<nat> {
    set i | i in s :: i + 1
  }

  lemma {:induction false} MovedSize(s: set<nat>)
    ensures |Moved(s)| == |s|
    decreases |s|
  {
    if s != {} {
      var x :| x in s;
      var moved, others := Moved(s), Moved(s - {x});
      MovedSize(s - {x});
      forall y
        ensures y in moved <==> y in others + {x + 1}
      {
        if y in moved {
          var i :| i in s && y == i + 1;
          assert i == x || i in s - {x};
        }
        if y in others {
          var i :| i in s - {x} && y == i + 1;
          assert i in s;
        }
      }
      assert moved == others + {x + 1} && x + 1 !in others;
    }
  }

  /** Whether enough of the sampled versions, and that of the state itself, are not below a version. */
  ghost predicate Signals(d: Data, version: nat, threshold: nat) {
    |Places(d.versions, version)| >= threshold && AtLeastSigned(d.versionSelf, version)
  }

  /** Which rules are active: bip16 by time; bip34, bip65 and bip66 by height where bip90 freezes them, or
      else by the versions sampled; the bip9 bits by checkpoints; and bip30 but for exceptions, unless its
      checkpoint has deactivated it and no later height reactivated it. */
  lemma {:induction false} ActivateIs(d: Data, c: Settings, s: Schedule)
    requires |c.checkpoints| == |d.checkpointHashes| == 4 && AreVersions(d, s)
    ensures var r, f := Activate(d, c, s), c.forks;
      && (r.bip16 <==> f.bip16 && s.bip16Time <= d.timestampSelf)
      && (r.bip34 <==> (f.bip90 && s.bip90Bip34Height <= d.height) || Signals(d, s.bip34Version, s.activationThreshold))
      && (r.bip65 <==> (f.bip90 && s.bip90Bip65Height <= d.height) || Signals(d, s.bip65Version, s.activationThreshold))
      && (r.bip66 <==> (f.bip90 && s.bip90Bip66Height <= d.height) || Signals(d, s.bip66Version, s.activationThreshold))
      && (r.bit0 <==> d.checkpointHashes[1] == c.checkpoints[1].hash)
      && (r.bit1 <==> d.checkpointHashes[2] == c.checkpoints[2].hash)
      && (r.bit2 <==> d.checkpointHashes[3] == c.checkpoints[3].hash)
      && (r.bip30 <==>
          && f.bip30 && Checkpoint(d.hash, d.height) !in s.exceptions
          && (f.bip30Deactivate && d.checkpointHashes[0] == c.checkpoints[0].hash ==>
                f.bip30Reactivate && s.bip30ReactivateHeight <= d.height))
  {
    hide Signed, AtLeastSigned, CountAtLeast, Places;
    CountIs(d.versions, s.bip34Version);
    CountIs(d.versions, s.bip65Version);
    CountIs(d.versions, s.bip66Version);
    SignedOrder(d.versionSelf, s.bip34Version);
    SignedOrder(d.versionSelf, s.bip65Version);
    SignedOrder(d.versionSelf, s.bip66Version);
  }

  ghost predicate AreVersions(d: Data, s: Schedule) {
    && s.bip34Version < POW32 && s.bip65Version < POW32 && s.bip66Version < POW32
    && d.versionSelf < POW32 && forall i :: 0 <= i < |d.versions| ==> d.versions[i] < POW32
  }

  /** Whether blocks of lower versions are no longer accepted. */
  ghost predicate Enforces(d: Data, c: Settings, version: nat, height: nat, threshold: nat) {
    (c.forks.bip90 && height <= d.height) || |Places(d.versions, version)| >= threshold
  }

  /** The least version of a block: that of bip65 if enforced, or else of bip66, or else of bip34. */
  lemma {:induction false} MinimumIs(d: Data, c: Settings, s: Schedule)
    requires |c.checkpoints| == |d.checkpointHashes| == 4 && AreVersions(d, s)
    ensures var by65 := Enforces(d, c, s.bip65Version, s.bip90Bip65Height, s.enforcementThreshold);
      var by66 := Enforces(d, c, s.bip66Version, s.bip90Bip66Height, s.enforcementThreshold);
      var by34 := Enforces(d, c, s.bip34Version, s.bip90Bip34Height, s.enforcementThreshold);
      var minimum := Activate(d, c, s).minimumVersion;
      && (by65 ==> minimum == s.bip65Version)
      && (!by65 && by66 ==> minimum == s.bip66Version)
      && (!by65 && !by66 && by34 ==> minimum == s.bip34Version)
      && (!by65 && !by66 && !by34 ==> minimum == 0)
  {
    hide Signed, AtLeastSigned, CountAtLeast, Places;
    CountIs(d.versions, s.bip34Version);
    CountIs(d.versions, s.bip65Version);
    CountIs(d.versions, s.bip66Version);
  }
}
