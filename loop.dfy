// The event loop of GoQat (loop.c): the re-arming timeout, the
// autoguider's wait for guide corrections, and the flag-word transitions
// of the CCD cancel, image-ready and quit checks of one event-loop
// iteration.

module Loop {

  /** A guint: unsigned and 32 bits wide. */
  type Guint = x: int | 0 <= x < 0x1_0000_0000

  // ---------------------------------------------------------------------
  // timeout

  /** The guint difference now - timer, which wraps round when the clock
      is behind the timer. */
  function Since(now: Guint, timer: Guint): (d: Guint)
    ensures now >= timer ==> d == now - timer
    ensures now < timer ==> d == now - timer + 0x1_0000_0000
  {
    (now - timer) % 0x1_0000_0000
  }

  /** timeout (loop.c) with the milliseconds since the first loop
      iteration as the parameter now: the new timer and whether the
      time-out has elapsed. An unset (zero) timer is armed with now and does
      not fire; an armed one fires, and is unset again, once more than msec
      milliseconds have gone by since it was armed. */
  function TimeoutStep(timer: Guint, now: Guint, msec: Guint): (r: (Guint, bool))
    ensures timer == 0 ==> r == (now, false)
    ensures timer != 0 && timer <= now ==> (r.1 <==> now - timer > msec)
    ensures timer != 0 && now < timer ==> (r.1 <==> now + 0x1_0000_0000 - timer > msec)
    ensures r.1 ==> r.0 == 0
    ensures timer != 0 && !r.1 ==> r.0 == timer
  {
    if timer == 0 then (now, false)
    else if Since(now, timer) > msec then (0, true)
    else (timer, false)
  }

  /** A timer variable passed to timeout by address. */
  class Timer {
    var value: Guint

    constructor ()
      ensures value == 0
    {
      value := 0;
    }

    method Timeout(now: Guint, msec: Guint) returns (fired: bool)
      modifies this
      ensures (value, fired) == TimeoutStep(old(value), now, msec)
    {
      if value == 0 {
        value := now;
        return false;
      }
      if (now - value) % 0x1_0000_0000 > msec {
        value := 0;
        return true;
      } else {
        return false;
      }
    }
  }

  /** After a time-out has fired, the next call re-arms the timer with the
      time of that call and does not fire; so a repeating time-out fires at
      most every other call. */
  lemma TimeoutRearms(timer: Guint, now: Guint, msec: Guint, later: Guint)
    requires TimeoutStep(timer, now, msec).1
    ensures TimeoutStep(TimeoutStep(timer, now, msec).0, later, msec) == (later, false)
  {
  }

  /** A timer armed at a non-zero time a, asked at times that do not run
      behind a, fires at the first call more than msec after a: a call not
      past that keeps the timer as it was. */
  lemma TimeoutArmedAt(a: Guint, msec: Guint, t1: Guint, t2: Guint)
    requires 0 < a <= t1 <= t2
    requires t1 - a <= msec < t2 - a
    ensures var (r1, f1) := TimeoutStep(a, t1, msec);
      !f1 && r1 == a && TimeoutStep(r1, t2, msec) == (0, true)
  {
  }

  /** A timer armed when the clock still reads 0 stays unset: the next call
      arms it again rather than measuring from 0. */
  lemma TimeoutArmedAtZero(msec: Guint, later: Guint)
    ensures TimeoutStep(TimeoutStep(0, 0, msec).0, later, msec) == (later, false)
  {
  }

  // ---------------------------------------------------------------------
  // Flag words

  // Each word of the Flags struct (Flags.Loop, Flags.CCD, Flags.Aug,
  // Flags.Foc, Flags.Lvw) is a set of one-bit flags that the loop sets with
  // |= and clears with &= ~; it is modelled as the set of its flags that
  // are on. The bit each flag stands for is given by the *Bit functions,
  // which are one-to-one, so the set holds exactly the word's information.

  datatype LoopFlag = OCL | OIQ

  datatype CcdFlag = CCO | CCA | CST | CSF | CSE | CEP | CIE | CCE | CIR | CDI
                   | CAP | CFP | CDT | CSI | CUS | CCC

  datatype AugFlag = AGO | AGA | ASE | AEP | AIR | ACC | ACI | ACG | ACM | ACE | ACD
                   | ACP | AGB | AGG | AGE | AGU | AGP | AGN | AGQ | AGI | ATP | AGC

  datatype FocFlag = FCO | FCM | FSM | FIM | FSP | FFF | FAO | FAT

  datatype LvwFlag = LVO | LVR | LVE | LVI | LVD | LVS | LVC

  /** The bit of Flags.CCD each flag is (CCO is 0x00000001, CCC
      0x00008000). */
  function CcdBit(f: CcdFlag): (b: nat)
    ensures b < 16
  {
    match f
    case CCO => 0 case CCA => 1 case CST => 2 case CSF => 3 case CSE => 4
    case CEP => 5 case CIE => 6 case CCE => 7 case CIR => 8 case CDI => 9
    case CAP => 10 case CFP => 11 case CDT => 12 case CSI => 13 case CUS => 14
    case CCC => 15
  }

  /** The bit of Flags.Aug each flag is (AGO is 0x00000001, AGC
      0x00200000). */
  function AugBit(f: AugFlag): (b: nat)
    ensures b < 22
  {
    match f
    case AGO => 0 case AGA => 1 case ASE => 2 case AEP => 3 case AIR => 4
    case ACC => 5 case ACI => 6 case ACG => 7 case ACM => 8 case ACE => 9
    case ACD => 10 case ACP => 11 case AGB => 12 case AGG => 13 case AGE => 14
    case AGU => 15 case AGP => 16 case AGN => 17 case AGQ => 18 case AGI => 19
    case ATP => 20 case AGC => 21
  }

  /** No two CCD flags share a bit. */
  lemma CcdBitsDistinct(f: CcdFlag, g: CcdFlag)
    ensures CcdBit(f) == CcdBit(g) ==> f == g
  {
  }

  /** No two autoguider flags share a bit. */
  lemma AugBitsDistinct(f: AugFlag, g: AugFlag)
    ensures AugBit(f) == AugBit(g) ==> f == g
  {
  }

  /** The guide directions of enum MotionDirection (H = 1, V = 2), each a
      bit of guide_motion. */
  datatype Direction = H | V

  /** The CCD flags a cancel clears. */
  const CANCELLED: set<CcdFlag> := {CCE, CEP, CSF, CST, CSE}

  /** loop_autog_exposure_wait on the Aug word and the static guide_motion
      mask, as the new pair. */
  function ExposureWaitStep(aug: set<AugFlag>, motion: set<Direction>, wait: bool, dirn: Direction)
    : (r: (set<AugFlag>, set<Direction>))
    ensures r.0 - {ASE} == aug - {ASE}
    ensures wait ==> ASE !in r.0 && r.1 == motion + {dirn}
    ensures !wait ==> r.1 == motion - {dirn}
    ensures !wait ==> (ASE in r.0 <==> r.1 == {} || ASE in aug)
  {
    if wait then (aug - {ASE}, motion + {dirn})
    else
      var m := motion - {dirn};
      (if m == {} then aug + {ASE} else aug, m)
  }

  /** A run of loop_autog_exposure_wait calls, given as (wait, direction)
      pairs, applied in order. */
  function ExposureWaits(aug: set<AugFlag>, motion: set<Direction>, events: seq<(bool, Direction)>)
    : (r: (set<AugFlag>, set<Direction>))
    ensures r.0 - {ASE} == aug - {ASE}
    decreases |events|
  {
    if events == [] then (aug, motion)
    else
      var (a, m) := ExposureWaitStep(aug, motion, events[0].0, events[0].1);
      ExposureWaits(a, m, events[1..])
  }

  /** After a run of calls, ASE is off when the last call was a wait, and
      on when the last was the end of a correction and no direction is left
      recorded. */
  lemma {:induction false} ExposureWaitsAse(aug: set<AugFlag>, motion: set<Direction>,
                                            events: seq<(bool, Direction)>)
    requires events != []
    ensures var r := ExposureWaits(aug, motion, events);
      var last := events[|events| - 1];
      last.0 ==> ASE !in r.0
    ensures var r := ExposureWaits(aug, motion, events);
      var last := events[|events| - 1];
      !last.0 && r.1 == {} ==> ASE in r.0
    decreases |events|
  {
    var (a, m) := ExposureWaitStep(aug, motion, events[0].0, events[0].1);
    if |events| > 1 {
      ExposureWaitsAse(a, m, events[1..]);
      assert events[1..][|events[1..]| - 1] == events[|events| - 1];
    }
  }

  /** With two guide corrections under way at once, the end of the first
      does not let an autoguider exposure start; the end of the second
      does. */
  lemma OverlappingCorrections(aug: set<AugFlag>)
    ensures var (a1, m1) := ExposureWaitStep(aug, {}, true, H);
      var (a2, m2) := ExposureWaitStep(a1, m1, true, V);
      var (a3, m3) := ExposureWaitStep(a2, m2, false, H);
      var (a4, m4) := ExposureWaitStep(a3, m3, false, V);
      ASE !in a3 && ASE in a4 && m4 == {}
  {
  }

  /** The cancel check of event_loop on the CCD word: when CCE is set it
      clears the cancel request together with the exposure in progress and
      the pending set-filter, set-temperature and start-exposure requests;
      every other flag is kept. */
  function CancelStep(ccd: set<CcdFlag>): (c: set<CcdFlag>)
    ensures c - CANCELLED == ccd - CANCELLED
    ensures CCE in ccd ==> c !! CANCELLED
    ensures CCE !in ccd ==> c == ccd
  {
    if CCE in ccd then ccd - {CCE, CEP, CSF, CST, CSE} else ccd
  }

  /** The image-ready check of event_loop on the CCD and Aug words: when
      CIR is set it clears CIR and CEP; a successful capture then asks for
      the image to be displayed (CDI) and marks the autoguider as not idle
      (AGE cleared). Only those flags change. */
  function ImageReadyStep(ccd: set<CcdFlag>, aug: set<AugFlag>, captured: bool): (r: (set<CcdFlag>, set<AugFlag>))
    ensures CIR !in ccd ==> r == (ccd, aug)
    ensures CIR in ccd ==> CIR !in r.0 && CEP !in r.0 && (CDI in r.0 <==> captured || CDI in ccd)
    ensures CIR in ccd ==> (AGE in r.1 <==> !captured && AGE in aug)
    ensures r.0 - {CIR, CEP, CDI} == ccd - {CIR, CEP, CDI} && r.1 - {AGE} == aug - {AGE}
  {
    if CIR !in ccd then (ccd, aug)
    else
      var c := ccd - {CIR, CEP};
      if captured then (c + {CDI}, aug - {AGE}) else (c, aug)
  }

  /** The quit check at the end of event_loop: with OIQ set, the loop quits
      (and clears OIQ) only when no CCD camera close, autoguider close,
      focuser motion or live-view close is pending. */
  function QuitStep(loopw: set<LoopFlag>, ccd: set<CcdFlag>, aug: set<AugFlag>, foc: set<FocFlag>,
                    lvw: set<LvwFlag>): (r: (set<LoopFlag>, bool))
    ensures r.1 <==> OIQ in loopw && CCC !in ccd && AGC !in aug && FIM !in foc && LVC !in lvw
    ensures r.1 ==> r.0 == loopw - {OIQ}
    ensures !r.1 ==> r.0 == loopw
  {
    if OIQ in loopw then
      if CCC !in ccd && AGC !in aug && FIM !in foc && LVC !in lvw then (loopw - {OIQ}, true)
      else (loopw, false)
    else (loopw, false)
  }

  /** Once the loop has quit it does not quit a second time. */
  lemma QuitOnce(loopw: set<LoopFlag>, ccd: set<CcdFlag>, aug: set<AugFlag>, foc: set<FocFlag>,
                 lvw: set<LvwFlag>)
    requires QuitStep(loopw, ccd, aug, foc, lvw).1
    ensures !QuitStep(QuitStep(loopw, ccd, aug, foc, lvw).0, ccd, aug, foc, lvw).1
  {
  }

  /** After the cancel check or the image-ready check has acted, no CCD
      exposure is in progress. */
  lemma NoExposureAfter(ccd: set<CcdFlag>, aug: set<AugFlag>, captured: bool)
    ensures CCE in ccd ==> CEP !in CancelStep(ccd)
    ensures CIR in ccd ==> CEP !in ImageReadyStep(ccd, aug, captured).0
  {
  }

  /** The static Flags struct of loop.c (the words the modelled steps use)
      and loop_autog_exposure_wait's static guide_motion. */
  class LoopFlags {
    var loopw: set<LoopFlag>
    var ccd: set<CcdFlag>
    var aug: set<AugFlag>
    var foc: set<FocFlag>
    var lvw: set<LvwFlag>
    var guideMotion: set<Direction>

    constructor ()
      ensures loopw == {} && ccd == {} && aug == {} && foc == {} && lvw == {} && guideMotion == {}
    {
      loopw, ccd, aug, foc, lvw := {}, {}, {}, {}, {};
      guideMotion := {};
    }

    /** loop_autog_exposure_wait */
    method ExposureWait(wait: bool, dirn: Direction)
      modifies this
      ensures (aug, guideMotion) == ExposureWaitStep(old(aug), old(guideMotion), wait, dirn)
      ensures loopw == old(loopw) && ccd == old(ccd) && foc == old(foc) && lvw == old(lvw)
    {
      if wait {
        aug := aug - {ASE};
        guideMotion := guideMotion + {dirn};
      } else {
        guideMotion := guideMotion - {dirn};
        if guideMotion == {} {
          aug := aug + {ASE};
        }
      }
    }

    /** The cancel check of event_loop (the camera's cancel call and the
        progress bar are left out). */
    method CheckCancel()
      modifies this
      ensures ccd == CancelStep(old(ccd))
      ensures loopw == old(loopw) && aug == old(aug) && foc == old(foc) && lvw == old(lvw)
      ensures guideMotion == old(guideMotion)
    {
      if CCE in ccd {
        ccd := ccd - {CCE, CEP, CSF, CST, CSE};
      }
    }

    /** The image-ready check of event_loop, with the outcome of
        ccdcam_capture_exposure as the parameter captured. */
    method CheckImageReady(captured: bool)
      modifies this
      ensures (ccd, aug) == ImageReadyStep(old(ccd), old(aug), captured)
      ensures loopw == old(loopw) && foc == old(foc) && lvw == old(lvw)
      ensures guideMotion == old(guideMotion)
    {
      if CIR in ccd {
        ccd := ccd - {CIR, CEP};
        if captured {
          ccd := ccd + {CDI};
          aug := aug - {AGE};
        }
      }
    }

    /** The quit check at the end of event_loop: true when the loop ends. */
    method CheckQuit() returns (quit: bool)
      modifies this
      ensures (loopw, quit) == QuitStep(old(loopw), ccd, aug, foc, lvw)
      ensures ccd == old(ccd) && aug == old(aug) && foc == old(foc) && lvw == old(lvw)
      ensures guideMotion == old(guideMotion)
    {
      quit := false;
      if OIQ in loopw {
        if CCC !in ccd && AGC !in aug && FIM !in foc && LVC !in lvw {
          loopw := loopw - {OIQ};
          quit := true;
        }
      }
    }
  }
}
