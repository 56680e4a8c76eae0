/** Event factories: listeners created together, paused together, and registered with an event manager. */
module Factories {
  import opened Common
  import opened PauseCounts

  class Listener {
    var paused: nat
    var registered: bool

    constructor ()
      ensures paused == 0 && !registered
    {
      paused, registered := 0, false;
    }

    function View(m: Manager): Lst
      reads this, m
    {
      Lst(paused, registered, m.listeners[this])
    }

    method PauseAt(level: nat, m: Manager)
      modifies this, m
      ensures View(m) == PauseL(old(View(m)), level)
      ensures paused == (old(paused) + level) % 0x1_0000 && registered == (old(registered) && old(paused) != 0)
      ensures m.listeners == if old(paused) == 0 then old(m.listeners) - multiset{this} else old(m.listeners)
      ensures forall l: Listener :: l != this ==> m.listeners[l] == old(m.listeners[l])
      ensures forall l: Listener :: l != this && old(allocated(l)) ==> l.View(m) == old(l.View(m))
    {
      if paused == 0 {
        m.Remove(this);
      }
      paused := (paused + level) % U16_LIMIT;
    }

    method Resume(m: Manager)
      modifies this, m
      ensures View(m) == ResumeL(old(View(m)))
      ensures paused == (if old(paused) == 0 then 0 else old(paused) - 1)
      ensures registered == (old(registered) || paused == 0)
      ensures m.listeners == if old(paused) == 1 || (old(paused) == 0 && !old(registered))
                             then old(m.listeners) + multiset{this} else old(m.listeners)
      ensures forall l: Listener :: l != this ==> m.listeners[l] == old(m.listeners[l])
      ensures forall l: Listener :: l != this && old(allocated(l)) ==> l.View(m) == old(l.View(m))
    {
      if paused == 0 {
        if !registered {
          m.Add(this);
        }
      } else {
        paused := paused - 1;
        if paused == 0 {
          m.Add(this);
        }
      }
    }

    /** The destructor, as far as the manager is concerned. */
    method Destroy(m: Manager)
      modifies this, m
      ensures View(m) == DeleteL(old(View(m))) && !registered
      ensures m.listeners == if old(registered) then old(m.listeners) - multiset{this} else old(m.listeners)
      ensures forall l: Listener :: l != this ==> m.listeners[l] == old(m.listeners[l])
    {
      if registered {
        m.Remove(this);
      }
    }
  }

  /** The manager of the event's type; its list without its order. */
  class Manager {
    var listeners: multiset<Listener>

    constructor ()
      ensures listeners == multiset{}
    {
      listeners := multiset{};
    }

    method Add(li: Listener)
      modifies this, li`registered
      ensures li.registered && listeners == old(listeners) + multiset{li}
    {
      li.registered := true;
      listeners := listeners + multiset{li};
    }

    method Remove(li: Listener)
      modifies this, li`registered
      ensures !li.registered && listeners == old(listeners) - multiset{li}
    {
      li.registered := false;
      listeners := listeners - multiset{li};
    }
  }

  class Factory {
    var listeners: seq<Listener>
    var paused: nat

    constructor ()
      ensures listeners == [] && paused == 0
    {
      listeners, paused := [], 0;
    }

    ghost predicate Valid()
      reads this
    {
      paused < U16_LIMIT && forall i, j :: 0 <= i < j < |listeners| ==> listeners[i] != listeners[j]
    }

    ghost function View(m: Manager): World
      reads this, listeners, m
    {
      World(paused, seq(|listeners|, i requires 0 <= i < |listeners| reads this, listeners, m => listeners[i].View(m)))
    }

    method Add(m: Manager) returns (li: Listener)
      requires Valid()
      modifies this, m
      ensures Valid() && fresh(li) && listeners == old(listeners) + [li]
      ensures View(m) == Step(old(View(m)), PauseCounts.Add) && paused == old(paused)
      ensures li.paused == paused && li.registered == (paused == 0) && m.listeners[li] == if paused == 0 then 1 else 0
      ensures forall l: Listener :: l !in listeners ==> m.listeners[l] == old(m.listeners[l])
    {
      li := new Listener();
      assert li !in m.listeners;
      listeners := listeners + [li];
      if paused != 0 {
        li.PauseAt(paused, m);
      } else {
        m.Add(li);
      }
    }

    method Pause(m: Manager)
      requires Valid()
      modifies this`paused, listeners, m
      ensures Valid() && View(m) == Step(old(View(m)), PauseCounts.Pause)
      ensures forall l: Listener :: l !in listeners ==> m.listeners[l] == old(m.listeners[l])
    {
      hide PauseL, Listener.View;
      paused := (paused + 1) % U16_LIMIT;
      var i := 0;
      while i < |listeners|
        invariant i <= |listeners|
        invariant forall j :: 0 <= j < i ==> listeners[j].View(m) == PauseL(old(listeners[j].View(m)), 1)
        invariant forall j :: i <= j < |listeners| ==> listeners[j].View(m) == old(listeners[j].View(m))
        invariant forall l: Listener :: l !in listeners ==> m.listeners[l] == old(m.listeners[l])
        modifies listeners, m
      {
        listeners[i].PauseAt(1, m);
        i := i + 1;
      }
    }

    method Resume(m: Manager)
      requires Valid()
      modifies this`paused, listeners, m
      ensures Valid() && View(m) == Step(old(View(m)), PauseCounts.Resume)
      ensures forall l: Listener :: l !in listeners ==> m.listeners[l] == old(m.listeners[l])
    {
      hide ResumeL, Listener.View;
      paused := (paused + U16_LIMIT - 1) % U16_LIMIT;
      var i := 0;
      while i < |listeners|
        invariant i <= |listeners|
        invariant forall j :: 0 <= j < i ==> listeners[j].View(m) == ResumeL(old(listeners[j].View(m)))
        invariant forall j :: i <= j < |listeners| ==> listeners[j].View(m) == old(listeners[j].View(m))
        invariant forall l: Listener :: l !in listeners ==> m.listeners[l] == old(m.listeners[l])
        modifies listeners, m
      {
        listeners[i].Resume(m);
        i := i + 1;
      }
    }

    /** Takes a listener out of the factory, as its destructor does. */
    method Remove(li: Listener)
      requires Valid()
      modifies this
      ensures Valid() && paused == old(paused)
      ensures forall i :: 0 <= i < |old(listeners)| && old(listeners)[i] == li ==>
                listeners == old(listeners)[..i] + old(listeners)[i + 1..]
      ensures li !in old(listeners) ==> listeners == old(listeners)
    {
      var i := 0;
      while i < |listeners| && listeners[i] != li
        invariant i <= |listeners| && forall j :: 0 <= j < i ==> listeners[j] != li
      {
        i := i + 1;
      }
      if i < |listeners| {
        listeners := listeners[..i] + listeners[i + 1..];
      }
    }
  }
}
