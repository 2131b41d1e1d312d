/** Recoveries that crash one after another, before one gets through. */
module RecoverySequences {
  import opened JournalRing
  import opened RecoveryExact
  import opened RecoveryGroups
  import opened RecoveryHazard
  import opened RecoveryMaxLap
  import opened RecoveryMaxRun
  import opened RecoveryRestart
  import opened RecoverySteps
  import opened UndoRecovery

  /** What a crash during recovery leaves. An empty journal is not recovered at all. */
  function CrashImage(img: Image, steps: seq<RStep>): (r: Image)
    requires Bounds(img.slots, img.hdr)
    ensures Bounds(r.slots, r.hdr)
  {
    if img.hdr.head == img.hdr.tail then img else Run(Begin(img.mem, img.slots, img.hdr), steps).per
  }

  /** The image after a series of recoveries, each of which crashes somewhere. */
  function CrashImages(img: Image, runs: seq<seq<RStep>>): (r: Image)
    requires Bounds(img.slots, img.hdr)
    ensures Bounds(r.slots, r.hdr)
    decreases |runs|
  {
    if runs == [] then img else CrashImages(CrashImage(img, runs[0]), runs[1..])
  }

  /** Memory after the recovery of an image. */
  function Recovered(img: Image): Memory
    requires Bounds(img.slots, img.hdr)
  {
    Recover(img.mem, img.slots, img.hdr)
  }

  // ---- What the log's slots carry ------------------------------------------------------------------------------

  /** Every slot of the log carries an earlier generation than its lap's, or none: nothing is left to undo. */
  ghost predicate Quiet(slots: seq<Entry>, h: Header)
    requires Bounds(slots, h)
  {
    && 1 <= h.gen <= MAX_GEN_ID
    && forall second: bool, i :: InShare(Lap(slots, h, second), i) ==> slots[i].gen < LapGen(h, second)
  }

  lemma WipedLater(slots: seq<Entry>, p: seq<Entry>, h: Header)
    requires Bounds(slots, h) && SomeWiped(slots, p)
    ensures NothingLater(slots, h) ==> NothingLater(p, h)
    ensures Quiet(slots, h) ==> Quiet(p, h)
  {
    forall second: bool, i | InShare(Lap(p, h, second), i)
      ensures p[i].gen <= slots[i].gen && InShare(Lap(slots, h, second), i)
    {
    }
  }

  /** The next generation finds nothing in a recovered ring, not even when generations start again from 1. */
  lemma NextQuiet(slots: seq<Entry>, h: Header)
    requires Bounds(slots, h) && NothingLater(slots, h)
    ensures Quiet(RecoveredSlots(slots, h), HalfForwarded(h)) && Quiet(RecoveredSlots(slots, h), Forwarded(h))
    ensures SomeWiped(slots, RecoveredSlots(slots, h))
    ensures h.gen == MAX_GEN_ID ==> Quiet(RecoveredSlots(slots, h), h)
  {
    var p := RecoveredSlots(slots, h);
    forall second: bool, i | InShare(Lap(p, HalfForwarded(h), second), i)
      ensures p[i].gen < LapGen(HalfForwarded(h), second)
    {
      assert InShare(Lap(slots, h, second), i);
    }
    forall second: bool, i | h.gen == MAX_GEN_ID && InShare(Lap(p, h, second), i) ensures p[i].gen < LapGen(h, second) {
    }
  }

  lemma QuietUntouched(slots: seq<Entry>, h: Header)
    requires Bounds(slots, h) && Quiet(slots, h)
    ensures forall second: bool, i :: !Restored(slots, h, second, i)
    ensures forall second: bool, i: int :: !Lap(slots, h, second).Valid(i)
  {
    forall second: bool, i: int ensures !Lap(slots, h, second).Valid(i) {
      assert Lap(slots, h, second).Valid(i) ==> InShare(Lap(slots, h, second), i);
    }
  }

  // ---- Once nothing is left to undo -------------------------------------------------------------------------------

  ghost predicate Still(img: Image, t: Memory)
    requires Bounds(img.slots, img.hdr)
  {
    img.mem == t && Quiet(img.slots, img.hdr)
  }

  lemma StillRecovers(img: Image, t: Memory)
    requires Bounds(img.slots, img.hdr) && Still(img, t)
    ensures Recovered(img) == t
  {
    QuietUntouched(img.slots, img.hdr);
    NothingValid(t, img.slots, img.hdr);
  }

  /** The image while the last steps are taken. */
  lemma ClosingImage(r: Recovery, t: Memory, slots: seq<Entry>, h: Header)
    requires Fits(r) && Bounds(slots, h) && NothingLater(slots, h) && Closing(r, t, RecoveredSlots(slots, h), h)
    ensures Still(r.per, t) || (r.per.hdr == h && r.per.mem == t && r.per.slots == RecoveredSlots(slots, h))
  {
    hide RecoveredSlots, NothingLater, Quiet;
    NextQuiet(slots, h);
  }

  /** While the lap is scanned the ring is only wiped and the header stays. */
  lemma CoreImage(r: Recovery, mem: Memory, slots: seq<Entry>, h: Header, mx: bool, loose: set<nat>)
    requires Bounds(slots, h) && MaxCore(r, mem, slots, h, mx, loose)
    ensures r.per.hdr == h && r.cur.hdr == h && SomeWiped(slots, r.per.slots)
    ensures RingOk(r.cur.slots, r.per.slots, slots, h, mx, r.phase, loose) && GroupOk(slots, h, mx, r.phase, loose)
    ensures BetweenGroups(slots, h, r.phase) && GroupRestored(slots, h, r.phase) && PhaseFits(|slots|, h, r.phase)
    ensures Settled(r.per.mem, Recover(mem, slots, h), slots, h, mx, SettledFrom(slots, h, mx, r.phase))
  {
    hide WipedAt, LooseNow, Settled, GroupOk, BetweenGroups, GroupRestored, Completed, Recover;
  }

  lemma SettledAll(mem: Memory, t: Memory, slots: seq<Entry>, h: Header, mx: bool, pos: nat)
    requires Bounds(slots, h) && Settled(mem, t, slots, h, mx, pos) && Quiet(slots, h)
    ensures mem == t
  {
    hide Restored;
    QuietUntouched(slots, h);
    forall a | a in t ensures a in mem && mem[a] == t[a] {
      assert Untouched(slots, h, !mx, a) && NotBelow(slots, h, mx, pos, a);
    }
  }

  lemma StillScanning(r: Recovery, t: Memory, slots: seq<Entry>, h: Header)
    requires Bounds(slots, h) && Quiet(slots, h) && Scanning(r, t, slots, h)
    ensures r.per == Image(t, slots, h)
  {
    hide Restored, Quiet, Completed, GroupRestored, BetweenGroups, Recover;
    QuietUntouched(slots, h);
    forall a | a in t ensures a in r.per.mem && r.per.mem[a] == t[a] {
      assert a in r.per.mem.Keys;
      assert Untouched(slots, h, false, a) && Untouched(slots, h, true, a);
    }
  }

  lemma QuietLater(slots: seq<Entry>, h: Header)
    requires Bounds(slots, h) && Quiet(slots, h)
    ensures NothingLater(slots, h)
  {
  }

  lemma StillCrash(img: Image, t: Memory, steps: seq<RStep>)
    requires Bounds(img.slots, img.hdr) && Still(img, t)
    ensures Still(CrashImage(img, steps), t)
  {
    hide Scanning, Closing, MaxCore, Recover, RecoveredSlots, Run, Quiet, NothingLater, Settled, RingOk, GroupOk;
    var slots, h := img.slots, img.hdr;
    StillRecovers(img, t);
    QuietLater(slots, h);
    NextQuiet(slots, h);
    WipedLater(slots, RecoveredSlots(slots, h), h);
    var r := Run(Begin(t, slots, h), steps);
    if h.head == h.tail {
    } else if HasMaxLap(h) {
      var mx := h.gen != MAX_GEN_ID;
      MaxBegins(t, slots, h, mx);
      var loose := MaxRun(t, slots, h, mx, {}, Begin(t, slots, h), steps);
      if MaxCore(r, t, slots, h, mx, loose) {
        CoreImage(r, t, slots, h, mx, loose);
        SettledAll(r.per.mem, t, slots, h, mx, SettledFrom(slots, h, mx, r.phase));
        WipedLater(slots, r.per.slots, h);
      } else {
        ClosingImage(r, t, slots, h);
      }
    } else {
      BeginSound(t, slots, h);
      SoundRun(t, slots, h, Begin(t, slots, h), steps);
      if Scanning(r, t, slots, h) {
        StillScanning(r, t, slots, h);
      } else {
        RecoveredAgain(t, slots, h);
        ClosingImage(r, t, slots, h);
      }
    }
  }

  // ---- Without a lap of MAX_GEN_ID ----------------------------------------------------------------------------------

  /** Recovery has written nothing to the image but bytes that it writes again. */
  ghost predicate Resumed(img: Image, img0: Image)
    requires Bounds(img0.slots, img0.hdr)
  {
    img.slots == img0.slots && img.hdr == img0.hdr && DiffersWhereWritten(img.mem, img0.mem, img0.slots, img0.hdr)
  }

  lemma ResumedRecovers(img: Image, img0: Image)
    requires Bounds(img0.slots, img0.hdr) && Resumed(img, img0)
    ensures Recovered(img) == Recovered(img0)
  {
    hide Untouched, Recover;
    forall a | a in img0.mem ensures a in img.mem && Recovered(img)[a] == Recovered(img0)[a] {
      assert a in img.mem.Keys;
      SameByte(img.mem, img0.mem, img0.slots, img0.hdr, a);
    }
  }

  lemma ResumedCrash(img: Image, img0: Image, steps: seq<RStep>)
    requires Bounds(img0.slots, img0.hdr) && Resumed(img, img0) && !HasMaxLap(img0.hdr)
    requires NothingLater(img0.slots, img0.hdr)
    ensures Resumed(CrashImage(img, steps), img0) || Still(CrashImage(img, steps), Recovered(img0))
  {
    hide Closing, Recover, RecoveredSlots, Run, Quiet, NothingLater, Untouched, Completed, GroupRestored, BetweenGroups;
    var slots, h := img.slots, img.hdr;
    ResumedRecovers(img, img0);
    BeginSound(img.mem, slots, h);
    SoundRun(img.mem, slots, h, Begin(img.mem, slots, h), steps);
    var r := Run(Begin(img.mem, slots, h), steps);
    if !Scanning(r, img.mem, slots, h) {
      RecoveredAgain(img.mem, slots, h);
      ClosingImage(r, Recovered(img0), slots, h);
      RecoveredDiffers(img0.mem, slots, h);
    }
  }

  lemma RecoveredDiffers(mem: Memory, slots: seq<Entry>, h: Header)
    requires Bounds(slots, h)
    ensures DiffersWhereWritten(Recover(mem, slots, h), mem, slots, h)
  {
    hide Restored, Recover;
    forall a | a in mem && Untouched(slots, h, false, a) && Untouched(slots, h, true, a)
      ensures Recover(mem, slots, h)[a] == mem[a]
    {
      StaysUntouched(mem, slots, h, false, true, a);
    }
  }

  lemma {:induction false} StillImages(img: Image, t: Memory, runs: seq<seq<RStep>>)
    requires Bounds(img.slots, img.hdr) && Still(img, t)
    ensures Recovered(CrashImages(img, runs)) == t
    decreases |runs|
  {
    hide Still, Recovered, CrashImage;
    if runs == [] {
      StillRecovers(img, t);
    } else {
      StillCrash(img, t, runs[0]);
      StillImages(CrashImage(img, runs[0]), t, runs[1..]);
    }
  }

  lemma {:induction false} ResumedImages(img: Image, img0: Image, runs: seq<seq<RStep>>)
    requires Bounds(img0.slots, img0.hdr) && Resumed(img, img0) && !HasMaxLap(img0.hdr)
    requires NothingLater(img0.slots, img0.hdr)
    ensures Recovered(CrashImages(img, runs)) == Recovered(img0)
    decreases |runs|
  {
    hide Still, Recovered, CrashImage, NothingLater, DiffersWhereWritten;
    if runs == [] {
      ResumedRecovers(img, img0);
    } else {
      ResumedCrash(img, img0, runs[0]);
      if Resumed(CrashImage(img, runs[0]), img0) {
        ResumedImages(CrashImage(img, runs[0]), img0, runs[1..]);
      } else {
        StillImages(CrashImage(img, runs[0]), Recovered(img0), runs[1..]);
      }
    }
  }

  /** However many recoveries crash before one gets through, at whatever point each of them, memory ends as after
      an undisturbed one. */
  lemma ManyCrashes(img: Image, runs: seq<seq<RStep>>)
    requires Bounds(img.slots, img.hdr) && !HasMaxLap(img.hdr) && NothingLater(img.slots, img.hdr)
    ensures Recovered(CrashImages(img, runs)) == Recovered(img)
  {
    ResumedImages(img, img, runs);
  }
}
