/** contour::TerminalSessionManager, without Qt and the pseudo terminals behind the sessions. */
module TerminalSessions {
  import opened Options
  import opened Tabs

  /** A session, as far as the manager writes to it: the tab information its status line shows. */
  class TerminalSession {
    var tabCount: nat
    var activeTabPosition: nat

    constructor () {
      tabCount, activeTabPosition := 0, 0;
    }
  }

  function Optional(s: TerminalSession?): Option<TerminalSession> {
    if s == null then None else Some(s)
  }

  class TerminalSessionManager {
    var sessions: seq<TerminalSession>
    var active: TerminalSession?
    var previous: TerminalSession?
    /** Whether there is a display. */
    var display: bool

    ghost function Bar(): TabBar<TerminalSession>
      reads this
    {
      TabBar(sessions, Optional(active), Optional(previous))
    }

    /** The status line of the active terminal shows the real number and position of its tab. */
    ghost predicate StatusIsReal()
      reads this, active
    {
      active != null ==>
        active.tabCount == |sessions| && active.activeTabPosition == 1 + Find<TerminalSession>(sessions, active)
    }

    /** The status line shows what updateStatusLine writes; for a session outside the list, the first position. */
    ghost predicate StatusIsUpdated()
      reads this, active
    {
      active != null ==>
        var k := Find<TerminalSession>(sessions, active);
        active.tabCount == |sessions| && active.activeTabPosition == 1 + if k < |sessions| then k else 0
    }

    ghost predicate Valid()
      reads this, active
    {
      Sound(Bar()) && StatusIsReal() && (display ==> sessions != [])
    }

    constructor ()
      ensures Valid() && Bar() == TabBar([], None, None) && !display
    {
      sessions, active, previous, display := [], null, null, false;
    }

    /** The application sets the display from outside; with one there has to be a session. */
    method SetDisplay(present: bool)
      requires Valid()
      modifies this`display
      ensures display == present && Bar() == old(Bar())
      ensures Valid() <==> (present ==> sessions != [])
    {
      display := present;
    }

    /** getSessionIndexOf, with the length of the list for nullopt. */
    method GetSessionIndexOf(s: TerminalSession?) returns (k: nat)
      ensures k == if s == null then |sessions| else Find<TerminalSession>(sessions, s)
    {
      k := 0;
      while k < |sessions| && sessions[k] != s
        invariant k <= |sessions| && forall j :: 0 <= j < k ==> sessions[j] != s
      {
        k := k + 1;
      }
    }

    method UpdateStatusLine()
      modifies if active == null then {} else {active}
      ensures StatusIsUpdated()
    {
      if active == null {
        return;
      }
      var k := GetSessionIndexOf(active);
      active.tabCount := |sessions|;
      active.activeTabPosition := 1 + if k < |sessions| then k else 0;
    }

    /** createSessionInBackground: the new session is put behind the active one, and not yet activated. */
    method CreateSessionInBackground() returns (s: TerminalSession)
      requires Valid()
      modifies this`previous, this`sessions
      ensures fresh(s) && Bar() == Opened<TerminalSession>(old(Bar()), s)
    {
      previous := active;
      s := new TerminalSession();
      var k := GetSessionIndexOf(active);
      var insertPoint := if k < |sessions| then k + 1 else k;
      sessions := InsertedAt(sessions, insertPoint, s);
    }

    /** activateSession. With a display, the session that was active before is dereferenced. */
    method ActivateSession(s: TerminalSession?)
      requires s != null && display ==> active != null
      modifies this`active, this`previous, if s == null then {} else {s}
      ensures Bar() == if s == null then old(Bar()) else Activated<TerminalSession>(old(Bar()), s)
      ensures s != null && s != old(active) ==> StatusIsUpdated()
      ensures s != null && s == old(active) ==>
                s.tabCount == old(s.tabCount) && s.activeTabPosition == old(s.activeTabPosition)
    {
      if s == null || active == s {
        return;
      }
      previous := active;
      active := s;
      UpdateStatusLine();
      if display {
        assert previous != null;
      }
    }

    method CreateSession() returns (s: TerminalSession)
      requires Valid()
      modifies this
      ensures fresh(s) && Valid() && Bar() == Created<TerminalSession>(old(Bar()), s) && display == old(display)
    {
      SoundActive(Bar());
      s := CreateSessionInBackground();
      CreatedSound<TerminalSession>(old(Bar()), s);
      ActivateSession(s);
    }

    /** setSession; not ok where the original's Require fails. */
    method SetSession(index: nat) returns (ok: bool, ghost added: TerminalSession?)
      requires Valid()
      modifies this, sessions
      ensures ok == (index <= |old(sessions)|) && Valid()
      ensures added != null <==> index == |old(sessions)|
      ensures added != null ==> fresh(added) && Bar() == Created<TerminalSession>(old(Bar()), added)
      ensures added == null ==>
                Bar() == if ok then Activated<TerminalSession>(old(Bar()), old(sessions)[index]) else old(Bar())
    {
      added := null;
      ok := index <= |sessions|;
      if index < |sessions| {
        ActivatedSound<TerminalSession>(Bar(), sessions[index]);
        ActivateSession(sessions[index]);
      } else if ok {
        var s := CreateSession();
        added := s;
      }
    }

    method SwitchToPreviousTab()
      requires Valid()
      modifies this, sessions
      ensures Valid() && Bar() == WentToPrevious(old(Bar()))
    {
      if previous != null {
        ActivatedSound<TerminalSession>(Bar(), previous);
      }
      ActivateSession(previous);
    }

    /** switchToTabLeft; without a tab the original terminates, and this is not ok. */
    method SwitchToTabLeft() returns (ok: bool)
      requires Valid()
      modifies this, sessions
      ensures ok == (old(sessions) != []) && Valid()
      ensures ok ==> Allowed(old(Bar()), TabOp.SwitchToTabLeft) && Bar() == WentLeft(old(Bar()))
      ensures !ok ==> Bar() == old(Bar())
    {
      SoundActive(Bar());
      var k := GetSessionIndexOf(active);
      ok := k < |sessions|;
      if ok {
        LeftIndex(Bar());
        ghost var added;
        ok, added := SetSession(if k > 0 then k - 1 else |sessions| - 1);
      }
    }

    method SwitchToTabRight() returns (ok: bool)
      requires Valid()
      modifies this, sessions
      ensures ok == (old(sessions) != []) && Valid()
      ensures ok ==> Allowed(old(Bar()), TabOp.SwitchToTabRight) && Bar() == WentRight(old(Bar()))
      ensures !ok ==> Bar() == old(Bar())
    {
      SoundActive(Bar());
      var k := GetSessionIndexOf(active);
      ok := k < |sessions|;
      if ok {
        RightIndex(Bar());
        ghost var added;
        ok, added := SetSession(if k < |sessions| - 1 then k + 1 else 0);
      }
    }

    method SwitchToTab(position: int)
      requires Valid()
      modifies this, sessions
      ensures Valid() && Bar() == WentTo(old(Bar()), position)
      ensures sessions == old(sessions)
      ensures if 1 <= position <= |sessions| then active == sessions[position - 1]
              else active == old(active)
    {
      if 1 <= position <= |sessions| {
        ActivatedSound<TerminalSession>(Bar(), sessions[position - 1]);
        ActivateSession(sessions[position - 1]);
      }
    }

    method SwapTabs(i: nat, j: nat)
      requires Valid() && i < |sessions| && j < |sessions|
      modifies this`sessions, sessions
      ensures Valid() && Bar() == old(Bar()).(sessions := Swapped(old(sessions), i, j))
    {
      SwappedSound(Bar(), i, j);
      sessions := Swapped(sessions, i, j);
      SoundActive(Bar());
      UpdateStatusLine();
    }

    method MoveTabTo(position: int)
      requires Valid()
      modifies this`sessions, sessions
      ensures Valid() && Bar() == MovedTo(old(Bar()), position)
    {
      var k := GetSessionIndexOf(active);
      if k < |sessions| && 1 <= position <= |sessions| {
        SwapTabs(k, position - 1);
      }
    }

    method MoveTabToLeft(s: TerminalSession?)
      requires Valid()
      modifies this`sessions, sessions
      ensures Valid() && Bar() == if s == null then old(Bar()) else MovedLeft<TerminalSession>(old(Bar()), s)
    {
      var k := GetSessionIndexOf(s);
      if 0 < k < |sessions| {
        SwapTabs(k, k - 1);
      }
    }

    method MoveTabToRight(s: TerminalSession?)
      requires Valid()
      modifies this`sessions, sessions
      ensures Valid() && Bar() == if s == null then old(Bar()) else MovedRight<TerminalSession>(old(Bar()), s)
    {
      var k := GetSessionIndexOf(s);
      if k + 1 < |sessions| {
        SwapTabs(k, k + 1);
      }
    }

    /** The tab that switchToPreviousTab will go to after a removal. */
    method ChoosePrevious()
      modifies this`previous
      ensures Bar() == old(Bar()).(previous := Neighbour(old(Bar())))
    {
      var i := GetSessionIndexOf(active);
      i := if i < |sessions| then i else 0;
      previous := if i + 1 < |sessions| then sessions[i + 1]
                  else if 0 < i <= |sessions| then sessions[i - 1]
                  else null;
    }

    method LeaveActive(that: TerminalSession)
      requires Valid()
      modifies this`active, this`previous, sessions
      ensures Bar() == Left(old(Bar()), that)
      ensures StatusIsReal()
    {
      if that == active && previous != null {
        ActivateSession(previous);
      }
    }

    method Erase(k: nat)
      requires k < |sessions|
      modifies this`sessions, this`previous, if active == null then {} else {active}
      ensures Bar() == Erased(old(Bar()), k)
      ensures active != null && Has<TerminalSession>(sessions, active) ==> StatusIsReal()
    {
      sessions := sessions[..k] + sessions[k + 1..];
      ChoosePrevious();
      UpdateStatusLine();
    }

    /** removeSession. Once the last session is gone, the active session is a stale one. */
    method RemoveSession(that: TerminalSession)
      requires Valid()
      modifies this, sessions
      ensures Bar() == Removed(old(Bar()), that) && display == old(display)
      ensures Valid() <==> old(sessions) != [that]
    {
      RemovedSound(Bar(), that);
      LeaveActive(that);
      var k := GetSessionIndexOf(that);
      if k < |sessions| {
        Erase(k);
      }
    }

    /** closeTab; without an active session the original dereferences null, and this is not ok. */
    method CloseTab() returns (ok: bool)
      requires Valid()
      modifies this, sessions
      ensures ok == (old(active) != null)
      ensures Bar() == if ok then Removed<TerminalSession>(old(Bar()), old(active)) else old(Bar())
      ensures Valid() <==> !ok || old(sessions) != [old(active)]
    {
      ok := active != null;
      if ok {
        RemoveSession(active);
      }
    }
  }
}
