/** The Windows timer driver of IUP: a table from system timer ids to timer elements, filled when
    a timer starts and emptied when it stops, through which the system's timer messages reach
    the element's ACTION_CB. */
module WinTimer {
  import opened Wrappers

  /** Callback return value that ends the main loop (include/iup.h). */
  const IupClose := -3

  const Two32 := 0x1_0000_0000

  /** The TIME attribute read as an int and stored in an unsigned int. */
  function AsUnsigned(t: int): (u: int)
    ensures 0 <= u < Two32
    ensures 0 <= t < Two32 ==> u == t
  {
    t % Two32
  }

  /** For a 32-bit TIME a timer starts exactly when TIME is not zero: a negative TIME becomes a
      very long period, not a refusal. */
  lemma StartsIffNonZero(t: int)
    requires -0x8000_0000 <= t < 0x8000_0000
    ensures AsUnsigned(t) > 0 <==> t != 0
    ensures t < 0 ==> AsUnsigned(t) == t + Two32
  {
  }

  /** A timer element: the system timer id it runs under (positive while running) and whether
      the element is still alive (the object check). */
  class Timer {
    var serial: int
    var alive: bool

    constructor()
      ensures serial == 0 && alive
    {
      serial := 0;
      alive := true;
    }
  }

  /** The driver's table, `None` before the class is initialised and after it is released. The
      ghost set `started` names the timers that hold a system id (started and not stopped), and
      `running` those of them started since the table was created. */
  class TimerDriver {
    var table: Option<map<int, Timer>>
    ghost var started: set<Timer>
    ghost var running: set<Timer>

    /** Started timers hold distinct positive ids; every entry is a running timer filed under its
        own id, and every running timer has its entry. */
    ghost predicate Valid()
      reads this, started
    {
      (forall t :: t in started ==> t.serial > 0) &&
      (forall t1, t2 :: t1 in started && t2 in started && t1.serial == t2.serial ==> t1 == t2) &&
      running <= started &&
      (table.None? ==> running == {}) &&
      (table.Some? ==>
        (forall id :: id in table.value ==> id > 0 && table.value[id] in running && table.value[id].serial == id) &&
        (forall t :: t in running ==> t.serial > 0 && t.serial in table.value && table.value[t.serial] == t))
    }

    constructor()
      ensures table.None? && started == {} && running == {} && Valid()
    {
      table := None;
      started := {};
      running := {};
    }

    /** Class initialisation: the table is created once and kept across later calls. */
    method InitClass()
      requires Valid()
      modifies this
      ensures Valid()
      ensures table == if old(table).None? then Some(map[]) else old(table)
      ensures started == old(started) && running == old(running)
    {
      if table.None? {
        table := Some(map[]);
      }
    }

    /** Class release: the table goes away. Timers still running keep their positive id, so they
        cannot be started again. */
    method Release()
      requires Valid()
      modifies this
      ensures table.None? && started == old(started) && running == {} && Valid()
    {
      table := None;
      running := {};
    }

    /** Starts `t`: nothing when it runs already or when TIME as unsigned is 0; otherwise the
        system gives the id `newId` (a parameter: the system call is not part of this model; the
        system does not hand out an id that is in use), the timer keeps it and the table files
        the timer under it. Every timer holding an id was started here. */
    method Run(t: Timer, time: int, newId: int)
      requires Valid() && table.Some?
      requires t.serial <= 0 || t in started
      requires newId > 0 && forall s :: s in started ==> s.serial != newId
      modifies this, t`serial
      ensures Valid()
      ensures var starts := old(t.serial) <= 0 && AsUnsigned(time) > 0;
              if starts then
                t.serial == newId && table == Some(old(table.value)[newId := t]) &&
                started == old(started) + {t} && running == old(running) + {t}
              else
                t.serial == old(t.serial) && table == old(table) && started == old(started) && running == old(running)
    {
      if t.serial > 0 {
        return;
      }
      var timeMs := AsUnsigned(time);
      if timeMs > 0 {
        assert t !in started;
        t.serial := newId;
        table := Some(table.value[newId := t]);
        started := started + {t};
        running := running + {t};
      }
    }

    /** Stops `t`: when it has an id, the entry under that id goes and the id becomes -1. Every
        timer holding an id was started here. */
    method Stop(t: Timer)
      requires Valid()
      requires t.serial <= 0 || t in started
      modifies this, t`serial
      ensures Valid()
      ensures if old(t.serial) > 0 then
                t.serial == -1 && started == old(started) - {t} && running == old(running) - {t} &&
                table == (if old(table).Some? then Some(old(table).value - {old(t.serial)}) else None)
              else
                t.serial == old(t.serial) && table == old(table) && started == old(started) && running == old(running)
    {
      if t.serial > 0 {
        if table.Some? {
          table := Some(table.value - {t.serial});
        }
        started := started - {t};
        running := running - {t};
        t.serial := -1;
      }
    }

    /** A timer message with id `id`: the element filed under `id`, when there is one and it is
        still alive, has its ACTION_CB called (`cbResult`, `None` when it has none); the main loop
        ends when the callback returns IUP_CLOSE. Nothing in the driver changes. */
    method TimerProc(id: int, cbResult: Option<int>) returns (exitLoop: bool)
      ensures exitLoop <==> table.Some? && id in table.value && table.value[id].alive && cbResult == Some(IupClose)
    {
      if table.None? || id !in table.value {
        return false;
      }
      var t := table.value[id];
      if !t.alive {
        return false;
      }
      exitLoop := cbResult.Some? && cbResult.value == IupClose;
    }

    /** The element a message reaches, if any. */
    function Target(id: int): Option<Timer>
      reads this
    {
      if table.Some? && id in table.value then Some(table.value[id]) else None
    }

    /** A message reaches a timer only under the id the timer runs with. */
    lemma TargetIsRunning(id: int)
      requires Valid()
      ensures Target(id).Some? ==> Target(id).value in running && Target(id).value.serial == id
      ensures forall t :: t in running ==> Target(t.serial) == Some(t)
    {
    }
  }

  /** Once a timer has been stopped, a late message with its former id reaches nothing, and the
      timer can be started again. */
  method StopThenLateMessage(d: TimerDriver, t: Timer, cbResult: Option<int>) returns (exitLoop: bool)
    requires d.Valid() && d.table.Some? && t.serial > 0 && t in d.started
    modifies d, t`serial
    ensures d.Valid() && t.serial == -1 && t !in d.started
    ensures !exitLoop
  {
    var id := t.serial;
    d.Stop(t);
    exitLoop := d.TimerProc(id, cbResult);
  }
}
