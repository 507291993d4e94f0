// oaCapture's Camera class (camera.cc): control values are stored at once
// but applied to the camera later, with a pair of 32-bit flag words that
// say which controls are waiting. Each flag word is modelled as the set of
// its bits that are on (bit b stands for 1 << b): `|= 1 << b` adds b,
// `&= 0xffffffff ^ (1 << b)` removes it and `== 0` is emptiness. The calls
// into the camera library (oaCameraSetControl) are recorded, in order, in
// the field `sent`.

module Camera {

  /** OA_CTRL_LAST_P1: controls are numbered 1 .. 62. */
  const LAST_P1: int := 63
  /** OA_CTRL_EXPOSURE_ABSOLUTE */
  const EXPOSURE_ABSOLUTE: int := 32
  /** OA_CTRL_BINNING */
  const BINNING: int := 61
  /** DEFAULT_FRAME_TIME */
  const DEFAULT_FRAME_TIME: int := 100

  /** The flag word of control c (c - 1) / 32, and its bit (c - 1) % 32;
      for c >= 1 the C division and remainder agree with Dafny's. */
  function WordOf(c: int): (i: nat)
    requires c >= 1
  {
    (c - 1) / 32
  }

  function BitOf(c: int): (b: nat)
    requires c >= 1
    ensures b < 32
  {
    (c - 1) % 32
  }

  /** Word and bit together name the control: no two controls share a
      flag, and the flags of controls 1 .. 64 lie in words 0 and 1. */
  lemma SlotNamesControl(a: int, b: int)
    requires a >= 1 && b >= 1
    ensures WordOf(a) == WordOf(b) && BitOf(a) == BitOf(b) ==> a == b
    ensures WordOf(a) < 2 <==> a <= 64
    ensures a - 1 == 32 * WordOf(a) + BitOf(a)
  {
  }

  /** Whether control c is flagged in the two flag words w. */
  predicate IsFlagged(w: seq<set<nat>>, c: int)
    requires c >= 1 && |w| == 2
  {
    WordOf(c) < 2 && BitOf(c) in w[WordOf(c)]
  }

  /** setConfigUpdateFlag on the words: controls past the two words are
      ignored. */
  function SetFlag(w: seq<set<nat>>, c: int): (r: seq<set<nat>>)
    requires c >= 1 && |w| == 2
    ensures |r| == 2
  {
    if WordOf(c) < 2 then w[WordOf(c) := w[WordOf(c)] + {BitOf(c)}] else w
  }

  /** clearConfigUpdateFlag on the words. */
  function ClearFlag(w: seq<set<nat>>, c: int): (r: seq<set<nat>>)
    requires c >= 1 && |w| == 2
    ensures |r| == 2
  {
    if WordOf(c) < 2 then w[WordOf(c) := w[WordOf(c)] - {BitOf(c)}] else w
  }

  /** Setting a control's flag flags that control, if it has a place in the
      words, and no other. */
  lemma SetFlagFlags(w: seq<set<nat>>, a: int, b: int)
    requires a >= 1 && b >= 1 && |w| == 2
    ensures IsFlagged(SetFlag(w, a), b) <==> IsFlagged(w, b) || (b == a && a <= 64)
  {
    SlotNamesControl(a, b);
  }

  /** Clearing a control's flag unflags that control and no other. */
  lemma ClearFlagClears(w: seq<set<nat>>, a: int, b: int)
    requires a >= 1 && b >= 1 && |w| == 2
    ensures IsFlagged(ClearFlag(w, a), b) <==> IsFlagged(w, b) && b != a
  {
    SlotNamesControl(a, b);
  }

  /** Both words are zero. */
  predicate NoFlags(w: seq<set<nat>>)
    requires |w| == 2
  {
    w[0] == {} && w[1] == {}
  }

  /** With both words zero no control is flagged. */
  lemma NoFlagsNoneFlagged(w: seq<set<nat>>, c: int)
    requires |w| == 2 && c >= 1 && NoFlags(w)
    ensures !IsFlagged(w, c)
  {
  }

  /** The controls below c, from 1 up, that are flagged in w, each with its
      stored value: the oaCameraSetControl calls owed. */
  function PendingBelow(w: seq<set<nat>>, values: seq<int>, c: int): (p: seq<(int, int)>)
    requires |w| == 2 && 1 <= c <= |values|
    decreases c
  {
    if c == 1 then []
    else PendingBelow(w, values, c - 1) + (if IsFlagged(w, c - 1) then [(c - 1, values[c - 1])] else [])
  }

  /** Every call owed below c is for a flagged control below c, with its
      stored value, and the controls come in increasing order. */
  lemma {:induction false} PendingBelowSound(w: seq<set<nat>>, values: seq<int>, c: int, k: nat)
    requires |w| == 2 && 1 <= c <= |values| && k < |PendingBelow(w, values, c)|
    ensures var p := PendingBelow(w, values, c);
      1 <= p[k].0 < c && IsFlagged(w, p[k].0) && p[k].1 == values[p[k].0] &&
      (k > 0 ==> p[k - 1].0 < p[k].0)
    decreases c
  {
    var p := PendingBelow(w, values, c - 1);
    if k < |p| {
      PendingBelowSound(w, values, c - 1, k);
    } else if k > 0 {
      PendingBelowSound(w, values, c - 1, k - 1);
    }
  }

  /** The calls owed for all the controls that have a stored value. */
  function Owed(w: seq<set<nat>>, values: seq<int>): (p: seq<(int, int)>)
    requires |w| == 2 && |values| >= 1
  {
    PendingBelow(w, values, |values|)
  }

  /** Every flagged control below c is owed a call. */
  lemma {:induction false} PendingBelowComplete(w: seq<set<nat>>, values: seq<int>, c: int, a: int)
    requires |w| == 2 && 1 <= c <= |values| && 1 <= a < c && IsFlagged(w, a)
    ensures (a, values[a]) in PendingBelow(w, values, c)
    decreases c
  {
    if a < c - 1 {
      PendingBelowComplete(w, values, c - 1, a);
    }
  }

  /** Words w are words w0 with the flags of the controls below c cleared
      and the rest as they were. */
  ghost predicate FlushedBelow(w: seq<set<nat>>, w0: seq<set<nat>>, c: int)
    requires |w| == 2 && |w0| == 2
  {
    (forall k :: 1 <= k < c ==> !IsFlagged(w, k)) &&
    (forall k :: k >= c && k >= 1 ==> (IsFlagged(w, k) <==> IsFlagged(w0, k)))
  }

  /** One more control flushed: if it was flagged, the words with its flag
      cleared; either way the owed calls grow by its call, if any. */
  lemma FlushedStep(w: seq<set<nat>>, w0: seq<set<nat>>, c: int)
    requires |w| == 2 && |w0| == 2 && c >= 1 && FlushedBelow(w, w0, c)
    ensures IsFlagged(w, c) <==> IsFlagged(w0, c)
    ensures IsFlagged(w, c) ==> FlushedBelow(ClearFlag(w, c), w0, c + 1)
    ensures !IsFlagged(w, c) ==> FlushedBelow(w, w0, c + 1)
  {
    forall k | k >= 1
      ensures IsFlagged(ClearFlag(w, c), k) <==> IsFlagged(w, k) && k != c
    {
      ClearFlagClears(w, c, k);
    }
  }

  /** The first call owed, if any. */
  function FirstOf<T>(p: seq<T>): (f: seq<T>)
    ensures |f| <= 1 && f <= p && (p != [] ==> |f| == 1)
  {
    if p == [] then [] else [p[0]]
  }

  /** The words after the capture thread's loop as written has sent the
      first owed call: that control's flag cleared, the others kept. */
  function AfterFirst(w: seq<set<nat>>, values: seq<int>): (r: seq<set<nat>>)
    requires |w| == 2 && |values| >= 1
    ensures |r| == 2
  {
    var o := Owed(w, values);
    if o == [] then w
    else
      PendingBelowSound(w, values, |values|, 0);
      ClearFlag(w, o[0].0)
  }

  /** After that loop exactly the first owed control is unflagged: every
      other control keeps the flag it had. */
  lemma AfterFirstKeepsOthers(w: seq<set<nat>>, values: seq<int>, k: int)
    requires |w| == 2 && |values| >= 1 && k >= 1
    ensures var o := Owed(w, values);
      IsFlagged(AfterFirst(w, values), k) <==> IsFlagged(w, k) && (o == [] || k != o[0].0)
  {
    var o := Owed(w, values);
    if o != [] {
      PendingBelowSound(w, values, |values|, 0);
      ClearFlagClears(w, o[0].0, k);
    }
  }

  class Camera {
    /** configFlags[2] */
    const configFlags: array<set<nat>>
    /** configValues[OA_CTRL_LAST_P1] */
    const configValues: array<int>
    var configUpdated: bool
    var frameTime: int
    /** The oaCameraSetControl calls made, as (control, value). */
    var sent: seq<(int, int)>

    ghost predicate Valid()
      reads this
    {
      configFlags.Length == 2 && configValues.Length == LAST_P1
    }

    function Flags(): (w: seq<set<nat>>)
      reads this, configFlags
      requires Valid()
      ensures |w| == 2
    {
      configFlags[..]
    }

    /** The constructor: no flags, nothing updated, the default frame
        time. */
    constructor ()
      ensures Valid() && fresh(configFlags) && fresh(configValues)
      ensures NoFlags(Flags()) && !configUpdated && frameTime == DEFAULT_FRAME_TIME && sent == []
    {
      configFlags := new set<nat>[2](_ => {});
      configValues := new int[LAST_P1];
      configUpdated := false;
      frameTime := DEFAULT_FRAME_TIME;
      sent := [];
    }

    /** setConfigUpdateFlag */
    method SetConfigUpdateFlag(control: int)
      requires Valid() && control >= 1
      modifies this, configFlags
      ensures Flags() == SetFlag(old(Flags()), control)
      ensures configUpdated == (old(configUpdated) || control <= 64)
      ensures frameTime == old(frameTime) && sent == old(sent)
    {
      var c := control - 1;
      var i := c / 32;
      c := c % 32;
      if i < 2 {
        configFlags[i] := configFlags[i] + {c};
        configUpdated := true;
      }
      assert Flags() == SetFlag(old(Flags()), control);
    }

    /** clearConfigUpdateFlag: 1 iff some flag is still set afterwards. */
    method ClearConfigUpdateFlag(control: int) returns (r: int)
      requires Valid() && control >= 1
      modifies configFlags
      ensures Flags() == ClearFlag(old(Flags()), control)
      ensures r == if NoFlags(Flags()) then 0 else 1
    {
      var c := control - 1;
      var i := c / 32;
      c := c % 32;
      if i < 2 {
        configFlags[i] := configFlags[i] - {c};
      }
      assert Flags() == ClearFlag(old(Flags()), control);
      r := if configFlags[0] == {} && configFlags[1] == {} then 0 else 1;
    }

    /** testConfigFlag */
    method TestConfigFlag(control: int) returns (r: int)
      requires Valid() && control >= 1
      ensures r == if IsFlagged(Flags(), control) then 1 else 0
    {
      var c := control - 1;
      var i := c / 32;
      c := c % 32;
      var res := false;
      if i < 2 {
        res := c in configFlags[i];
      }
      r := if res then 1 else 0;
    }

    /** setControl: the value is always stored; binning goes to the camera
        at once, any other control is flagged for later, and an absolute
        exposure also becomes the frame time. */
    method SetControl(control: int, value: int) returns (r: int)
      requires Valid() && 1 <= control < LAST_P1
      modifies this, configFlags, configValues
      ensures r == 0
      ensures configValues[..] == old(configValues[..])[control := value]
      ensures control == BINNING ==>
        sent == old(sent) + [(control, value)] && Flags() == old(Flags()) &&
        configUpdated == old(configUpdated) && frameTime == old(frameTime)
      ensures control != BINNING ==>
        sent == old(sent) && Flags() == SetFlag(old(Flags()), control) && configUpdated &&
        frameTime == (if control == EXPOSURE_ABSOLUTE then value else old(frameTime))
    {
      configValues[control] := value;
      if control == BINNING {
        sent := sent + [(control, value)];
      } else {
        SetConfigUpdateFlag(control);
        if control == EXPOSURE_ABSOLUTE {
          frameTime := value;
        }
      }
      r := 0;
    }

    /** flushSettings: every flagged control is sent, lowest first, with
        its stored value, and its flag cleared. */
    method FlushSettings()
      requires Valid()
      modifies this, configFlags
      ensures sent == old(sent) + Owed(old(Flags()), configValues[..])
      ensures FlushedBelow(Flags(), old(Flags()), LAST_P1)
      ensures !configUpdated && frameTime == old(frameTime)
    {
      var calls := FlushFlags();
      sent := sent + calls;
      configUpdated := false;
    }

    /** The loop of flushSettings: the calls it makes, in order. */
    method FlushFlags() returns (calls: seq<(int, int)>)
      requires Valid()
      modifies configFlags
      ensures calls == Owed(old(Flags()), configValues[..])
      ensures FlushedBelow(Flags(), old(Flags()), LAST_P1)
    {
      ghost var w0 := Flags();
      ghost var vals := configValues[..];
      calls := [];
      var c := 1;
      while c < LAST_P1
        invariant 1 <= c <= LAST_P1
        invariant calls == PendingBelow(w0, vals, c)
        invariant FlushedBelow(Flags(), w0, c)
      {
        ghost var w1 := Flags();
        FlushedStep(w1, w0, c);
        var t := TestConfigFlag(c);
        if t != 0 {
          calls := calls + [(c, configValues[c])];
          var _ := ClearConfigUpdateFlag(c);
        }
        c := c + 1;
      }
    }

    /** The configuration step of the capture thread as written: its loop
        runs only while clearConfigUpdateFlag has returned 0, so it leaves
        after the first flagged control whenever other flags remain. It sends
        just the first call owed and then marks the configuration as up to
        date, stranding the other flags. */
    method CaptureUpdatesAsWritten()
      requires Valid()
      modifies this, configFlags
      ensures !old(configUpdated) ==> sent == old(sent) && unchanged(configFlags)
      ensures old(configUpdated) ==>
        sent == old(sent) + FirstOf(Owed(old(Flags()), configValues[..])) &&
        Flags() == AfterFirst(old(Flags()), configValues[..])
      ensures !configUpdated && frameTime == old(frameTime)
    {
      if configUpdated {
        var calls := UpdateFlagsAsWritten();
        sent := sent + calls;
        configUpdated := false;
      }
    }

    /** The loop of the capture thread's configuration step as written:
        the calls it makes. */
    method UpdateFlagsAsWritten() returns (calls: seq<(int, int)>)
      requires Valid()
      modifies configFlags
      ensures calls == FirstOf(Owed(old(Flags()), configValues[..]))
      ensures Flags() == AfterFirst(old(Flags()), configValues[..])
    {
      ghost var w0 := Flags();
      ghost var vals := configValues[..];
      ghost var done := false;
      calls := [];
      var c := 1;
      var r := 0;
      while r == 0 && c < LAST_P1
        invariant 1 <= c <= LAST_P1
        invariant !done ==> r == 0 && calls == [] && PendingBelow(w0, vals, c) == [] && Flags() == w0
        invariant done ==> calls == FirstOf(Owed(w0, vals)) && Flags() == AfterFirst(w0, vals)
        invariant done && r == 0 ==> NoFlags(Flags())
      {
        var t := TestConfigFlag(c);
        if done {
          NoFlagsNoneFlagged(Flags(), c);
        }
        if t != 0 {
          r, calls := SendFirst(c, w0, vals);
          done := true;
        } else if !done {
          assert PendingBelow(w0, vals, c + 1) == PendingBelow(w0, vals, c);
        }
        c := c + 1;
      }
      assert done || Owed(w0, vals) == [];
    }

    /** The body of that loop at the first flagged control c: its call,
        which is the first one owed, and the clear, whose result is 0 only
        when no flag is left. */
    method SendFirst(c: int, ghost w0: seq<set<nat>>, ghost vals: seq<int>) returns (r: int, calls: seq<(int, int)>)
      requires Valid() && 1 <= c < LAST_P1 && vals == configValues[..]
      requires Flags() == w0 && IsFlagged(w0, c) && PendingBelow(w0, vals, c) == []
      modifies configFlags
      ensures calls == FirstOf(Owed(w0, vals)) && Flags() == AfterFirst(w0, vals)
      ensures r == 0 <==> NoFlags(Flags())
    {
      PendingFirst(w0, vals, c);
      calls := [(c, configValues[c])];
      r := ClearConfigUpdateFlag(c);
    }

    /** The configuration step of the capture thread as intended (the
        flushSettings call the source keeps commented out there): every
        owed call is sent and no flag is left. */
    method CaptureUpdates()
      requires Valid()
      modifies this, configFlags
      ensures !old(configUpdated) ==> sent == old(sent) && unchanged(configFlags)
      ensures old(configUpdated) ==> sent == old(sent) + Owed(old(Flags()), configValues[..])
      ensures old(configUpdated) ==> FlushedBelow(Flags(), old(Flags()), LAST_P1)
      ensures !configUpdated && frameTime == old(frameTime)
    {
      if configUpdated {
        FlushSettings();
      }
    }
  }

  /** When control c is the first flagged one (none below it), the calls
      owed below c + 1 are just its own, and it heads the whole list. */
  lemma PendingFirst(w: seq<set<nat>>, values: seq<int>, c: int)
    requires |w| == 2 && 1 <= c < |values| && IsFlagged(w, c)
    requires PendingBelow(w, values, c) == []
    ensures PendingBelow(w, values, c + 1) == [(c, values[c])]
    ensures FirstOf(Owed(w, values)) == [(c, values[c])]
  {
    PendingPrefix(w, values, c + 1, |values|);
  }

  /** What is owed below c is a prefix of what is owed below a higher d. */
  lemma {:induction false} PendingPrefix(w: seq<set<nat>>, values: seq<int>, c: int, d: int)
    requires |w| == 2 && 1 <= c <= d <= |values|
    ensures PendingBelow(w, values, c) <= PendingBelow(w, values, d)
    decreases d
  {
    if c < d {
      PendingPrefix(w, values, c, d - 1);
    }
  }

  /** The capture thread as written strands a flag: with controls 1 and 2
      both waiting, it sends only control 1, yet flushSettings (and the
      intended step) send both. */
  lemma CaptureStrandsSecondFlag(values: seq<int>)
    requires |values| == LAST_P1
    ensures var w := [{0, 1}, {}];
      FirstOf(Owed(w, values)) == [(1, values[1])] &&
      [(1, values[1]), (2, values[2])] <= Owed(w, values) &&
      IsFlagged(AfterFirst(w, values), 2) && !IsFlagged(AfterFirst(w, values), 1)
  {
    var w: seq<set<nat>> := [{0, 1}, {}];
    assert IsFlagged(w, 1) && IsFlagged(w, 2);
    assert PendingBelow(w, values, 2) == [(1, values[1])];
    assert PendingBelow(w, values, 3) == [(1, values[1]), (2, values[2])];
    PendingPrefix(w, values, 3, |values|);
    AfterFirstKeepsOthers(w, values, 1);
    AfterFirstKeepsOthers(w, values, 2);
  }
}
