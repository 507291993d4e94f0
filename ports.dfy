// Sharing one serial port between the telescope, the autoguider and the
// focuser: a reference count and a mask of the users that hold the port.
// The telescope and the focuser open and close their links with the same
// code; only the probe after opening differs (a Gemini status query, a
// Robofocus version request), and it is given here as its outcome.

module Ports {

  /** The users of a serial port (PU_TEL, PU_AUTOG, PU_FOCUS). */
  datatype PortUser = Tel | Autog | Focus

  /** ref_count, the user mask (as the set of its bits) and whether the
      device file is open. */
  datatype PortState = PortState(refCount: nat, user: set<PortUser>, isOpen: bool)

  /** Each user that holds the port is counted once, and the device file is
      open exactly while someone holds it. */
  predicate PortValid(s: PortState)
  {
    s.refCount == |s.user| && (s.isOpen <==> s.refCount > 0)
  }

  /** The release half: drop the user's reference if it holds one, and close
      the device file once nobody holds the port. A port that is not open is
      left alone. */
  function CloseStep(s: PortState, u: PortUser): (t: PortState)
    ensures t.user <= s.user && t.refCount <= s.refCount
    ensures s.refCount > 0 ==> u !in t.user && (t.refCount == 0 ==> !t.isOpen)
  {
    if s.refCount == 0 then s
    else
      var s1 := if u in s.user then PortState(s.refCount - 1, s.user - {u}, s.isOpen) else s;
      if s1.refCount > 0 then s1 else PortState(0, s1.user, false)
  }

  /** The acquire half, before the probe: a user that already holds the port
      gets it again unchanged; the first user opens the device file (which
      may fail); a later user joins the open port. */
  function OpenStep(s: PortState, u: PortUser, deviceOpens: bool): (r: (PortState, bool))
    ensures r.1 ==> u in r.0.user && r.0.refCount > 0 && s.user <= r.0.user
    ensures !r.1 ==> r.0 == s && s.refCount == 0 && !deviceOpens
  {
    if s.refCount > 0 && u in s.user then (s, true)
    else if s.refCount == 0 then
      if deviceOpens then (PortState(s.refCount + 1, s.user + {u}, true), true) else (s, false)
    else (PortState(s.refCount + 1, s.user + {u}, s.isOpen), true)
  }

  /** The whole open call: acquire, then probe the device; a failed probe
      releases the port again and the call fails. */
  function OpenLink(s: PortState, u: PortUser, deviceOpens: bool, probeOk: bool): (r: (PortState, bool))
    ensures r.1 ==> u in r.0.user && r.0.refCount > 0 && s.user <= r.0.user
    ensures !r.1 ==> r.0.user <= s.user
  {
    var (s1, ok) := OpenStep(s, u, deviceOpens);
    if !ok then (s1, false)
    else if s.refCount > 0 && u in s.user then (s1, true)
    else if probeOk then (s1, true)
    else (CloseStep(s1, u), false)
  }

  lemma CloseKeepsValid(s: PortState, u: PortUser)
    requires PortValid(s)
    ensures PortValid(CloseStep(s, u))
    ensures u !in CloseStep(s, u).user
    ensures CloseStep(s, u).user == s.user - {u}
  {
    if s.refCount == 0 {
      assert s.user == {};
    }
  }

  /** Closing for a user that does not hold the port changes nothing, and the
      device file closes only when the last holder leaves. */
  lemma CloseOnlyForHolder(s: PortState, u: PortUser)
    requires PortValid(s)
    ensures u !in s.user ==> CloseStep(s, u) == s
    ensures CloseStep(s, u).isOpen <==> (s.user - {u}) != {}
  {
    if s.refCount == 0 {
      assert s.user == {};
    }
    CloseKeepsValid(s, u);
    var t := CloseStep(s, u);
    if t.user != {} {
      var x :| x in t.user;
      assert |t.user| > 0;
    }
  }

  lemma OpenKeepsValid(s: PortState, u: PortUser, deviceOpens: bool, probeOk: bool)
    requires PortValid(s)
    ensures PortValid(OpenLink(s, u, deviceOpens, probeOk).0)
    ensures OpenLink(s, u, deviceOpens, probeOk).1 ==> OpenLink(s, u, deviceOpens, probeOk).0.user == s.user + {u}
    ensures !OpenLink(s, u, deviceOpens, probeOk).1 ==> OpenLink(s, u, deviceOpens, probeOk).0 == s
  {
    if s.refCount == 0 {
      assert s.user == {};
    }
    var (s1, ok) := OpenStep(s, u, deviceOpens);
    if ok && !(s.refCount > 0 && u in s.user) {
      assert u !in s.user;
      assert s1.user == s.user + {u} && |s1.user| == |s.user| + 1;
      if !probeOk {
        assert s1.user - {u} == s.user;
      }
    }
  }

  /** A user that opens and then closes its link leaves the port as it found it. */
  lemma OpenThenCloseRestores(s: PortState, u: PortUser, deviceOpens: bool, probeOk: bool)
    requires PortValid(s) && u !in s.user
    requires OpenLink(s, u, deviceOpens, probeOk).1
    ensures CloseStep(OpenLink(s, u, deviceOpens, probeOk).0, u) == s
  {
    OpenKeepsValid(s, u, deviceOpens, probeOk);
    if s.refCount == 0 {
      assert s.user == {};
    }
    var t := OpenLink(s, u, deviceOpens, probeOk).0;
    assert t.user - {u} == s.user;
  }

  /** A comms port: telescope_open_comms_port / focus_open_focus_port and
      their close routines act on an instance of this. */
  class Port {
    var refCount: nat
    var user: set<PortUser>
    var isOpen: bool
    /** Whether ports[pnum].focus points at a focuser driver. */
    var focusDriver: bool

    function State(): (r: PortState)
      reads this
    {
      PortState(refCount, user, isOpen)
    }

    constructor ()
      ensures State() == PortState(0, {}, false) && !focusDriver
    {
      refCount := 0;
      user := {};
      isOpen := false;
      focusDriver := false;
    }

    /** Release the port for user u (telescope_close_comms_port). */
    method Close(u: PortUser)
      modifies this
      ensures State() == CloseStep(old(State()), u)
      ensures focusDriver == old(focusDriver)
    {
      if refCount == 0 {
        return;
      }
      if u in user {
        refCount := refCount - 1;
        user := user - {u};
      }
      if refCount > 0 {
        return;
      }
      isOpen := false;
    }

    /** focus_close_focus_port: the same release, and the focuser driver is
        unhooked only when the port actually closes. */
    method CloseFocus()
      modifies this
      ensures State() == CloseStep(old(State()), Focus)
      ensures old(refCount) == 0 ==> focusDriver == old(focusDriver)
      ensures old(refCount) > 0 ==> (focusDriver <==> old(focusDriver) && refCount > 0)
    {
      if refCount == 0 {
        return;
      }
      if Focus in user {
        refCount := refCount - 1;
        user := user - {Focus};
      }
      if refCount > 0 {
        return;
      }
      isOpen := false;
      focusDriver := false;
    }

    /** The open routine for user u. `deviceOpens` is what opening the
        device file would give; `probeOk` whether the device then answers. */
    method Open(u: PortUser, deviceOpens: bool, probeOk: bool) returns (ok: bool)
      modifies this
      ensures (State(), ok) == OpenLink(old(State()), u, deviceOpens, probeOk)
      ensures focusDriver == old(focusDriver)
    {
      if refCount > 0 && u in user {
        return true;
      }
      if refCount == 0 {
        if !deviceOpens {
          return false;
        }
        isOpen := true;
        refCount := refCount + 1;
        user := user + {u};
      } else {
        refCount := refCount + 1;
        user := user + {u};
      }
      if !probeOk {
        Close(u);
        return false;
      }
      ok := true;
    }
  
    /** focus_open_focus_port: acquire the port for the focuser; when the
        Robofocus driver is selected, hook it in and ask for the version,
        releasing the port again if it does not answer. */
    method OpenFocus(deviceOpens: bool, robofocus: bool, probeOk: bool) returns (ok: bool)
      modifies this
      ensures (State(), ok) == OpenLink(old(State()), Focus, deviceOpens, probeOk || !robofocus)
      ensures old(refCount > 0 && Focus in user) ==> focusDriver == old(focusDriver)
      ensures ok && robofocus && !old(refCount > 0 && Focus in user) ==> focusDriver
    {
      if refCount > 0 && Focus in user {
        return true;
      }
      if refCount == 0 {
        if !deviceOpens {
          return false;
        }
        isOpen := true;
        refCount := refCount + 1;
        user := user + {Focus};
      } else {
        refCount := refCount + 1;
        user := user + {Focus};
      }
      if robofocus {
        focusDriver := true;
        if !probeOk {
          CloseFocus();
          return false;
        }
      }
      ok := true;
    }
  }
}
