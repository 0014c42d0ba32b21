/** The two queues of an event loop as objects, and the code that runs on them between lock and
    unlock: every such section is one step of the interleaving. */
module EventLoop {
  import opened Posting
  import Q = Queue

  class EventLoop {
    var created: bool
    /** The eventfd. */
    var counter: nat
    var events: Q.Queue<Ev>
    var functors: Q.Queue<nat>
    var reader: Reader
    /** What the other threads are up to, and the logs. */
    ghost var others: State

    ghost predicate Valid()
      reads this, events, functors, events.ptr, functors.ptr
    {
      events.Valid() && functors.Valid() && events.ptr as object != functors.ptr
    }

    ghost function View(): State
      requires Valid()
      reads this, events, functors, events.ptr, functors.ptr
    {
      others.(created := created, counter := counter, queue := events.Contents(),
              functors := functors.Contents(), reader := reader)
    }

    constructor ()
      ensures Valid() && View() == START && fresh(events) && fresh(functors) && fresh(events.ptr) && fresh(functors.ptr)
    {
      created, counter, reader := false, 0, Idle;
      events := new Q.Queue(Q.QUEUE_INIT_SIZE);
      functors := new Q.Queue(Q.QUEUE_INIT_SIZE);
      others := START;
    }

    /** `customEvents.push(ev)` in `EventLoop::postEvent`. */
    method Give(f: nat)
      requires Valid()
      modifies this`others, functors, functors.ptr
      ensures Valid() && View() == Next(old(View()), Step.Give(f))
      ensures functors.ptr == old(functors.ptr) || fresh(functors.ptr)
    {
      functors.PushBack(f);
      others := others.(given := others.given + [f], waiting := others.waiting + multiset{Custom});
    }

    /** The first half of `hloop_post_event`, with the outcome of the system calls as a parameter; `goto
        unlock` when they fail. */
    method Write(ghost ev: Ev, ok: bool)
      requires Valid() && Enabled(View(), Step.Write(ev))
      modifies this`created, this`counter, this`others
      ensures Valid() && View() == Next(old(View()), if ok then Step.Write(ev) else Fail(ev))
    {
      ghost var waiting := others.waiting - multiset{ev};
      if !ok {
        others := others.(waiting := waiting, orphans := others.orphans + if ev == Custom then 1 else 0);
        return;
      }
      created := true;
      counter := counter + 1;
      others := others.(waiting := waiting, between := Poster(ev));
    }

    /** The second half: `event_queue_push_back`. */
    method Push(ev: Ev)
      requires Valid() && View().between == Poster(ev)
      modifies this`others, events, events.ptr
      ensures Valid() && View() == Next(old(View()), Step.Push)
      ensures events.ptr == old(events.ptr) || fresh(events.ptr)
    {
      events.PushBack(ev);
      others := others.(between := Nobody, pushed := others.pushed + [ev]);
    }

    /** Reading the eventfd; a pipe may hand over only some of the bytes. */
    method Read(k: nat)
      requires Valid() && Enabled(View(), Step.Read(k))
      modifies this`counter, this`reader
      ensures Valid() && View() == Next(old(View()), Step.Read(k))
    {
      counter := counter - k;
      reader := Looping(k);
    }

    /** One iteration of `eventfd_read_cb` up to the unlock: no event is found missing, in any run. */
    method TakeOut(ghost steps: seq<Step>) returns (ev: Ev)
      requires Valid() && Enabled(View(), Step.TakeOut)
      requires Possible(START, steps) && View() == After(START, steps)
      modifies this`reader, this`others, events`size, events`offset
      ensures Valid() && View() == Next(old(View()), Step.TakeOut) && reader == Calling(ev, old(reader.left) - 1)
    {
      hide Possible, After, Next;
      NeverEmpty(steps);
      TakeOutNext(View());
      ev := events.Front();
      events.PopFront();
      others := others.(called := others.called + [ev]);
      reader := Calling(ev, reader.left - 1);
    }

    /** The callback; `onCustomEvent` takes the first functor, which is there in any run. */
    method Call(ghost steps: seq<Step>) returns (ghost f: nat)
      requires Valid() && Enabled(View(), Step.Call)
      requires Possible(START, steps) && View() == After(START, steps)
      modifies this`reader, this`others, functors`size, functors`offset
      ensures Valid() && View() == Next(old(View()), Step.Call)
      ensures old(reader.ev) == Custom ==> [f] <= old(functors.Contents())
    {
      hide Possible, After, Next;
      NeverEmpty(steps);
      CallNext(View());
      f := 0;
      if reader.ev == Custom {
        f := OnCustomEvent();
      } else {
        reader := Looping(reader.left);
      }
    }

    /** `onCustomEvent`. */
    method OnCustomEvent() returns (f: nat)
      requires Valid() && functors.Contents() != [] && reader.Calling?
      modifies this`others, this`reader, functors`size, functors`offset
      ensures Valid() && [f] <= old(functors.Contents())
      ensures View() == old(View()).(functors := old(functors.Contents())[1..], ran := old(View()).ran + [f],
          reader := Looping(old(reader.left)))
    {
      f := functors.Front();
      functors.PopFront();
      others := others.(ran := others.ran + [f]);
      reader := Looping(reader.left);
    }
  }

  lemma TakeOutNext(s: State)
    requires Enabled(s, TakeOut) && s.queue != []
    ensures Next(s, TakeOut)
         == s.(queue := s.queue[1..], called := s.called + [s.queue[0]],
           reader := Calling(s.queue[0], s.reader.left - 1))
  {
  }

  lemma CallNext(s: State)
    requires Enabled(s, Call) && (s.reader.ev == Custom ==> s.functors != [])
    ensures Next(s, Call)
         == if s.reader.ev == Custom
            then s.(functors := s.functors[1..], ran := s.ran + [s.functors[0]], reader := Looping(s.reader.left))
            else s.(reader := Looping(s.reader.left))
  {
  }
}
