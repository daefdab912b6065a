/**
 Donating host pages to the firmware's buffer pool: pages are allocated, sent in messages of at
 most 32 and, if a message fails, given back.
 */
module BufPool {
  import opened Machine

  const MAX_PAGES_PER_MSG: nat := 32
  const MAX_BUF_POOL_SIZE: nat := 8 * 1024 * 1024

  /** What becomes of a message: it is not sent, not answered in time, refused, or accepted. */
  datatype Reply = SendFailed | TimedOut | Nacked | Acked

  /** Panic is the BUG_ON for a message that gets no page at all. */
  datatype Outcome = Success | Failure | Panic

  /** The outside: whether the k-th page allocation succeeds, and what becomes of the k-th message. */
  datatype World = World(grants: nat -> bool, replies: nat -> Reply)

  /**
   Where every page is. A page is named by the number of the allocation that returned it;
   `calls` counts the allocations attempted so far.
   */
  datatype Ledger = Ledger(calls: nat, messages: seq<seq<nat>>,
                           accepted: seq<nat>, freed: seq<nat>, unanswered: seq<nat>)

  function Min(a: nat, b: nat): nat {
    if a < b then a else b
  }

  /** ALIGN(size, PAGE_SIZE) / PAGE_SIZE */
  function PagesFor(size: nat): (n: nat)
    ensures size <= n * PAGE_SIZE < size + PAGE_SIZE
  {
    (size + PAGE_SIZE - 1) / PAGE_SIZE
  }

  /** The pages one message gets: allocations from `call` on, until `want` pages or the first failure. */
  function Batch(w: World, call: nat, want: nat): (b: seq<nat>)
    ensures |b| <= want
    decreases want
  {
    if want == 0 || !w.grants(call) then [] else [call] + Batch(w, call + 1, want - 1)
  }

  /** How many allocations filling a message takes: a failing one ends it. */
  function Attempts(w: World, call: nat, want: nat): (n: nat)
    ensures |Batch(w, call, want)| <= n
    decreases want
  {
    if want == 0 then 0 else if !w.grants(call) then 1 else 1 + Attempts(w, call + 1, want - 1)
  }

  lemma BatchStep(w: World, got: seq<nat>, call: nat, want: nat)
    ensures want == 0 ==> got + Batch(w, call, want) == got && Attempts(w, call, want) == 0
    ensures want > 0 && !w.grants(call) ==> got + Batch(w, call, want) == got && Attempts(w, call, want) == 1
    ensures want > 0 && w.grants(call) ==>
              && got + Batch(w, call, want) == (got + [call]) + Batch(w, call + 1, want - 1)
              && Attempts(w, call, want) == 1 + Attempts(w, call + 1, want - 1)
  {
  }

  /** The pages of the next message when `left` pages are still to be donated. */
  function Message(w: World, l: Ledger, left: nat): (b: seq<nat>)
    ensures |b| <= left && |b| <= MAX_PAGES_PER_MSG
  {
    Batch(w, l.calls, Min(left, MAX_PAGES_PER_MSG))
  }

  function Filled(w: World, l: Ledger, left: nat): Ledger {
    l.(calls := l.calls + Attempts(w, l.calls, Min(left, MAX_PAGES_PER_MSG)))
  }

  lemma {:induction false} BatchIs(w: World, call: nat, want: nat)
    ensures var b := Batch(w, call, want);
            && (forall i :: 0 <= i < |b| ==> b[i] == call + i && w.grants(b[i]))
            && (|b| < want ==> !w.grants(call + |b|))
            && Attempts(w, call, want) == |b| + (if |b| < want then 1 else 0)
    decreases want
  {
    if want > 0 && w.grants(call) {
      BatchIs(w, call + 1, want - 1);
      var b, rest := Batch(w, call, want), Batch(w, call + 1, want - 1);
      forall i | 0 <= i < |b|
        ensures b[i] == call + i && w.grants(b[i])
      {
        assert i > 0 ==> b[i] == rest[i - 1];
      }
    }
  }

  /** A message carries the next pages allocated; it falls short of 32, or of what is left, only by a refusal. */
  lemma MessageIs(w: World, l: Ledger, left: nat)
    ensures var m := Message(w, l, left);
            && (forall i :: 0 <= i < |m| ==> m[i] == l.calls + i && w.grants(m[i]))
            && (|m| == MAX_PAGES_PER_MSG || |m| == left || !w.grants(l.calls + |m|))
            && Filled(w, l, left).calls
               == l.calls + |m| + if |m| < MAX_PAGES_PER_MSG && |m| < left then 1 else 0
  {
    hide Batch, Attempts;
    BatchIs(w, l.calls, Min(left, MAX_PAGES_PER_MSG));
  }

  /** The ledger once message `m` has met its fate. */
  function Answered(l: Ledger, m: seq<nat>, reply: Reply): Ledger {
    var sent := l.(messages := l.messages + [m]);
    match reply
    case Acked => sent.(accepted := l.accepted + m)
    case TimedOut => sent.(unanswered := l.unanswered + m)
    case _ => sent.(freed := l.freed + m)
  }

  /** Donating `left` more pages, one message at a time. */
  function Donate(w: World, l: Ledger, left: nat): (Ledger, Outcome)
    decreases left
  {
    var m, l' := Message(w, l, left), Filled(w, l, left);
    if left > 0 && m == [] then (l', Panic)
    else
      var reply := w.replies(|l.messages|);
      var next := Answered(l', m, reply);
      if reply != Acked then (next, Failure)
      else if left == |m| then (next, Success)
      else Donate(w, next, left - |m|)
  }

  // ---------------------------------------------------------------- conservation

  /** The pages ever allocated, in order. */
  function Granted(w: World, calls: nat): seq<nat> {
    if calls == 0 then []
    else Granted(w, calls - 1) + if w.grants(calls - 1) then [calls - 1] else []
  }

  /** No allocation returns the same page twice. */
  lemma {:induction false} GrantedDistinct(w: World, calls: nat)
    ensures forall k :: k in Granted(w, calls) ==> 0 <= k < calls
    ensures forall i, j :: 0 <= i < j < |Granted(w, calls)| ==> Granted(w, calls)[i] != Granted(w, calls)[j]
  {
    if calls > 0 {
      GrantedDistinct(w, calls - 1);
      var init, all := Granted(w, calls - 1), Granted(w, calls);
      forall i, j | 0 <= i < j < |all|
        ensures all[i] != all[j]
      {
        assert all[i] == init[i] && init[i] in init;
        assert j < |init| ==> all[j] == init[j];
      }
    }
  }

  /** All the places a page can be in. */
  function Places(l: Ledger): multiset<nat> {
    multiset(l.accepted) + multiset(l.freed) + multiset(l.unanswered)
  }

  /** Every page allocated is in exactly one place: with the firmware, freed, or in a message nobody answered. */
  ghost predicate Conserved(w: World, l: Ledger) {
    Places(l) == multiset(Granted(w, l.calls))
  }

  lemma {:induction false} BatchGranted(w: World, call: nat, want: nat)
    ensures Granted(w, call + Attempts(w, call, want)) == Granted(w, call) + Batch(w, call, want)
    decreases want
  {
    if want == 0 {
      assert Granted(w, call) + [] == Granted(w, call);
    } else if w.grants(call) {
      BatchGranted(w, call + 1, want - 1);
      var b := Batch(w, call + 1, want - 1);
      assert (Granted(w, call) + [call]) + b == Granted(w, call) + ([call] + b);
    } else {
      assert Granted(w, call + 1) == Granted(w, call);
    }
  }

  lemma AnsweredPlaces(l: Ledger, m: seq<nat>, reply: Reply)
    ensures Places(Answered(l, m, reply)) == Places(l) + multiset(m)
  {
    match reply
    case Acked => assert multiset(l.accepted + m) == multiset(l.accepted) + multiset(m);
    case TimedOut => assert multiset(l.unanswered + m) == multiset(l.unanswered) + multiset(m);
    case _ => assert multiset(l.freed + m) == multiset(l.freed) + multiset(m);
  }

  lemma MessageGranted(w: World, l: Ledger, left: nat)
    ensures multiset(Granted(w, Filled(w, l, left).calls))
            == multiset(Granted(w, l.calls)) + multiset(Message(w, l, left))
  {
    hide Granted, Batch, Attempts;
    BatchGranted(w, l.calls, Min(left, MAX_PAGES_PER_MSG));
    MultisetOfConcat(Granted(w, l.calls), Message(w, l, left));
  }

  lemma MultisetOfConcat(a: seq<nat>, b: seq<nat>)
    ensures multiset(a + b) == multiset(a) + multiset(b)
  {
  }

  /** Filling and settling one message keeps the books. */
  lemma MessageConserves(w: World, l: Ledger, left: nat, reply: Reply)
    requires Conserved(w, l)
    ensures Message(w, l, left) == [] ==> Conserved(w, Filled(w, l, left))
    ensures Conserved(w, Answered(Filled(w, l, left), Message(w, l, left), reply))
  {
    hide Granted, Message, Places;
    MessageGranted(w, l, left);
    FilledKeeps(w, l, left);
    SamePlaces(l, Filled(w, l, left));
    AnsweredPlaces(Filled(w, l, left), Message(w, l, left), reply);
  }

  lemma SamePlaces(l: Ledger, l': Ledger)
    requires l'.accepted == l.accepted && l'.freed == l.freed && l'.unanswered == l.unanswered
    ensures Places(l') == Places(l)
  {
  }

  /** However a donation ends, every page it allocated is in exactly one place. */
  lemma {:induction false} DonateConserves(w: World, l: Ledger, left: nat)
    requires Conserved(w, l)
    ensures Conserved(w, Donate(w, l, left).0)
    decreases left
  {
    hide Conserved, Message, Filled, Answered;
    MessageConserves(w, l, left, w.replies(|l.messages|));
    FilledKeeps(w, l, left);
    var m, reply := Message(w, l, left), w.replies(|l.messages|);
    if !(left > 0 && m == []) && reply.Acked? && left != |m| {
      DonateConserves(w, Answered(Filled(w, l, left), m, reply), left - |m|);
    }
  }

  // ---------------------------------------------------------------- messages

  ghost predicate SizesWithin(messages: seq<seq<nat>>, start: nat, empty: bool) {
    forall i :: start <= i < |messages| ==> |messages[i]| <= MAX_PAGES_PER_MSG && (messages[i] == [] <==> empty)
  }

  /** Messages carry between one page and 32, except for the empty one that a request for nothing sends. */
  lemma {:induction false} MessageSizes(w: World, l: Ledger, left: nat)
    ensures var l' := Donate(w, l, left).0;
            l.messages <= l'.messages && SizesWithin(l'.messages, |l.messages|, left == 0)
    decreases left
  {
    hide Message, Filled;
    FilledKeeps(w, l, left);
    var m, reply := Message(w, l, left), w.replies(|l.messages|);
    if !(left > 0 && m == []) && reply.Acked? && left != |m| {
      MessageSizes(w, Answered(Filled(w, l, left), m, reply), left - |m|);
    }
  }

  /** The pages of some messages, in order. */
  function Pages(messages: seq<seq<nat>>): seq<nat> {
    if messages == [] then [] else messages[0] + Pages(messages[1..])
  }

  lemma PagesCons(m: seq<nat>, messages: seq<seq<nat>>)
    ensures Pages([m] + messages) == m + Pages(messages)
  {
    assert ([m] + messages)[1..] == messages;
  }

  /**
   How a donation that sends `sent` ends: the firmware has the pages of all its messages, or of all
   but the last; that one is freed unless the firmware may still take it.
   */
  ghost predicate Settled(w: World, l: Ledger, sent: seq<seq<nat>>, l': Ledger, o: Outcome) {
    && l'.messages == l.messages + sent
    && if o.Failure? then
         && sent != []
         && var lost := sent[|sent| - 1];
            var reply := w.replies(|l'.messages| - 1);
            && reply != Acked
            && l'.accepted == l.accepted + Pages(sent[..|sent| - 1])
            && l'.unanswered == l.unanswered + (if reply.TimedOut? then lost else [])
            && l'.freed == l.freed + (if reply.TimedOut? then [] else lost)
       else
         l'.accepted == l.accepted + Pages(sent) && l'.freed == l.freed && l'.unanswered == l.unanswered
  }

  lemma {:induction false} DonateSettles(w: World, l: Ledger, left: nat) returns (sent: seq<seq<nat>>)
    ensures Settled(w, l, sent, Donate(w, l, left).0, Donate(w, l, left).1)
    decreases left
  {
    hide Message, Filled;
    var m, l', reply := Message(w, l, left), Filled(w, l, left), w.replies(|l.messages|);
    FilledKeeps(w, l, left);
    if left > 0 && m == [] {
      sent := [];
    } else {
      PagesCons(m, []);
      assert [m] + [] == [m] && m + [] == m;
      sent := [m];
      var next := Answered(l', m, reply);
      if reply.Acked? && left != |m| {
        var rest := DonateSettles(w, next, left - |m|);
        sent := [m] + rest;
        SettledFromNext(w, l, m, next, rest, Donate(w, next, left - |m|).0, Donate(w, next, left - |m|).1);
      }
    }
  }

  lemma FilledKeeps(w: World, l: Ledger, left: nat)
    ensures var l' := Filled(w, l, left);
            && l'.messages == l.messages && l'.accepted == l.accepted
            && l'.freed == l.freed && l'.unanswered == l.unanswered
  {
  }

  lemma SettledFromNext(w: World, l: Ledger, m: seq<nat>, next: Ledger, rest: seq<seq<nat>>, l': Ledger, o: Outcome)
    requires next.messages == l.messages + [m] && next.accepted == l.accepted + m
    requires next.freed == l.freed && next.unanswered == l.unanswered
    requires Settled(w, next, rest, l', o)
    ensures Settled(w, l, [m] + rest, l', o)
  {
    var sent := [m] + rest;
    assert l'.messages == l.messages + sent;
    if o.Failure? {
      assert sent[..|sent| - 1] == [m] + rest[..|rest| - 1];
      PagesCons(m, rest[..|rest| - 1]);
    } else {
      PagesCons(m, rest);
    }
  }

  /** A donation succeeds exactly when the firmware ends up with every page asked for. */
  lemma {:induction false} SuccessIffAllDonated(w: World, l: Ledger, left: nat)
    requires left > 0
    ensures var (l', o) := Donate(w, l, left);
            && |l.accepted| <= |l'.accepted| <= |l.accepted| + left
            && (o == Success <==> |l'.accepted| == |l.accepted| + left)
    decreases left
  {
    hide Message, Filled;
    FilledKeeps(w, l, left);
    var m, reply := Message(w, l, left), w.replies(|l.messages|);
    if m != [] && reply.Acked? && left != |m| {
      SuccessIffAllDonated(w, Answered(Filled(w, l, left), m, reply), left - |m|);
    }
  }

  /** Where filling `j` messages in a row gets to: the next allocation, and the pages still wanted. */
  function Reached(w: World, calls: nat, left: nat, j: nat): (nat, nat)
    decreases j
  {
    if j == 0 then (calls, left)
    else
      var want := Min(left, MAX_PAGES_PER_MSG);
      Reached(w, calls + Attempts(w, calls, want), left - |Batch(w, calls, want)|, j - 1)
  }

  /** After `j` acknowledged messages pages are still wanted, and the next message gets no page at all. */
  ghost predicate RefusedAfter(w: World, calls: nat, sent: nat, left: nat, j: nat) {
    && Reached(w, calls, left, j).1 > 0 && !w.grants(Reached(w, calls, left, j).0)
    && forall i :: sent <= i < sent + j ==> w.replies(i) == Acked
  }

  lemma {:induction false} NothingWanted(w: World, calls: nat, j: nat)
    ensures Reached(w, calls, 0, j).1 == 0
    decreases j
  {
    if j > 0 {
      NothingWanted(w, calls + Attempts(w, calls, 0), j - 1);
    }
  }

  lemma RefusedNext(w: World, l: Ledger, left: nat, j: nat)
    requires Message(w, l, left) != [] && w.replies(|l.messages|) == Acked
    ensures RefusedAfter(w, l.calls, |l.messages|, left, j)
       <==> j > 0 && RefusedAfter(w, Filled(w, l, left).calls, |l.messages| + 1, left - |Message(w, l, left)|, j - 1)
  {
  }

  /**
   The machine stops for a message without a page exactly when, after some acknowledged messages,
   the first allocation for the next one is refused. Nothing was freed or left unanswered then.
   */
  lemma {:induction false} PanicIffRefused(w: World, l: Ledger, left: nat)
    ensures Donate(w, l, left).1 == Panic <==> exists j: nat :: RefusedAfter(w, l.calls, |l.messages|, left, j)
    ensures Donate(w, l, left).1 == Panic ==>
              var l' := Donate(w, l, left).0;
              l'.calls > 0 && !w.grants(l'.calls - 1) && l'.freed == l.freed && l'.unanswered == l.unanswered
    decreases left
  {
    var m, reply := Message(w, l, left), w.replies(|l.messages|);
    if left > 0 && m == [] {
      assert RefusedAfter(w, l.calls, |l.messages|, left, 0);
    } else if reply.Acked? && m != [] {
      var next := Answered(Filled(w, l, left), m, reply);
      PanicIffRefused(w, next, left - |m|);
      ShiftRefused(w, l, left, next.calls, |next.messages|, left - |m|);
    } else {
      NotRefused(w, l, left);
    }
  }

  lemma ShiftRefused(w: World, l: Ledger, left: nat, c: nat, n: nat, rest: nat)
    requires Message(w, l, left) != [] && w.replies(|l.messages|) == Acked
    requires c == Filled(w, l, left).calls && n == |l.messages| + 1 && rest == left - |Message(w, l, left)|
    ensures (exists j: nat :: RefusedAfter(w, l.calls, |l.messages|, left, j))
       <==> exists j: nat :: RefusedAfter(w, c, n, rest, j)
  {
    hide RefusedAfter;
    if j: nat :| RefusedAfter(w, l.calls, |l.messages|, left, j) {
      RefusedNext(w, l, left, j);
      assert RefusedAfter(w, c, n, rest, j - 1);
    }
    if j: nat :| RefusedAfter(w, c, n, rest, j) {
      RefusedNext(w, l, left, j + 1);
    }
  }

  lemma NotRefused(w: World, l: Ledger, left: nat)
    requires left == 0 || (Message(w, l, left) != [] && w.replies(|l.messages|) != Acked)
    ensures forall j: nat :: !RefusedAfter(w, l.calls, |l.messages|, left, j)
  {
    forall j: nat
      ensures !RefusedAfter(w, l.calls, |l.messages|, left, j)
    {
      NothingWanted(w, l.calls, j);
    }
  }

  /** After `j` messages nothing is wanted any more, and each of them got a page at once and was acknowledged. */
  ghost predicate AllTaken(w: World, calls: nat, sent: nat, left: nat, j: nat) {
    && Reached(w, calls, left, j).1 == 0
    && (forall i :: 0 <= i < j ==> w.grants(Reached(w, calls, left, i).0))
    && forall i :: sent <= i < sent + j ==> w.replies(i) == Acked
  }

  lemma TakenNext(w: World, l: Ledger, left: nat, j: nat)
    requires left > 0 && j > 0
    ensures AllTaken(w, l.calls, |l.messages|, left, j)
       <==> && Message(w, l, left) != [] && w.replies(|l.messages|) == Acked
            && AllTaken(w, Filled(w, l, left).calls, |l.messages| + 1, left - |Message(w, l, left)|, j - 1)
  {
    var c, rest := Filled(w, l, left).calls, left - |Message(w, l, left)|;
    assert forall i :: 0 <= i < j - 1 ==> Reached(w, l.calls, left, i + 1) == Reached(w, c, rest, i);
    assert Reached(w, l.calls, left, 0).0 == l.calls;
    if AllTaken(w, l.calls, |l.messages|, left, j) {
      assert w.grants(Reached(w, l.calls, left, 0).0);
      forall i | 0 <= i < j - 1
        ensures w.grants(Reached(w, c, rest, i).0)
      {
        assert w.grants(Reached(w, l.calls, left, i + 1).0);
      }
    }
    if Message(w, l, left) != [] && AllTaken(w, c, |l.messages| + 1, rest, j - 1) {
      forall i | 0 <= i < j
        ensures w.grants(Reached(w, l.calls, left, i).0)
      {
        if i > 0 {
          assert w.grants(Reached(w, c, rest, i - 1).0);
        }
      }
    }
  }

  /**
   A donation succeeds exactly when all messages it takes are acknowledged and none of them has its
   first allocation refused.
   */
  lemma {:induction false} SuccessIffTaken(w: World, l: Ledger, left: nat)
    requires left > 0
    ensures Donate(w, l, left).1 == Success <==> exists j: nat :: AllTaken(w, l.calls, |l.messages|, left, j)
    decreases left
  {
    hide AllTaken, Reached, Batch, Attempts;
    var m, reply := Message(w, l, left), w.replies(|l.messages|);
    var next := Answered(Filled(w, l, left), m, reply);
    if m != [] && reply.Acked? {
      if left == |m| {
        TakenAtOnce(w, next.calls, |next.messages|);
        TakenNext(w, l, left, 1);
      } else {
        SuccessIffTaken(w, next, left - |m|);
        ShiftTaken(w, l, left, next.calls, |next.messages|, left - |m|);
      }
    } else {
      forall j: nat
        ensures !AllTaken(w, l.calls, |l.messages|, left, j)
      {
        if j == 0 {
          StillWanted(w, l.calls, |l.messages|, left);
        } else {
          TakenNext(w, l, left, j);
        }
      }
    }
  }

  lemma TakenAtOnce(w: World, calls: nat, sent: nat)
    ensures AllTaken(w, calls, sent, 0, 0)
  {
  }

  lemma StillWanted(w: World, calls: nat, sent: nat, left: nat)
    requires left > 0
    ensures !AllTaken(w, calls, sent, left, 0)
  {
  }

  lemma ShiftTaken(w: World, l: Ledger, left: nat, c: nat, n: nat, rest: nat)
    requires left > 0 && Message(w, l, left) != [] && w.replies(|l.messages|) == Acked
    requires c == Filled(w, l, left).calls && n == |l.messages| + 1 && rest == left - |Message(w, l, left)|
    ensures (exists j: nat :: AllTaken(w, l.calls, |l.messages|, left, j))
       <==> exists j: nat :: AllTaken(w, c, n, rest, j)
  {
    hide AllTaken;
    StillWanted(w, l.calls, |l.messages|, left);
    if j: nat :| AllTaken(w, l.calls, |l.messages|, left, j) {
      TakenNext(w, l, left, j);
      assert AllTaken(w, c, n, rest, j - 1);
    }
    if j: nat :| AllTaken(w, c, n, rest, j) {
      TakenNext(w, l, left, j + 1);
    }
  }

  // ---------------------------------------------------------------- the sysctl

  /** One write to the pool-size sysctl; a number outside the range, or a second donation, is refused. */
  function Serve(w: World, l: Ledger, size: int): Ledger {
    if |l.accepted| > 0 || size < 1 || size > MAX_BUF_POOL_SIZE then l
    else Donate(w, l, PagesFor(size)).0
  }

  function ServeAll(w: World, sizes: seq<int>): Ledger {
    if sizes == [] then Ledger(0, [], [], [], [])
    else Serve(w, ServeAll(w, sizes[..|sizes| - 1]), sizes[|sizes| - 1])
  }

  lemma ServeAllAppend(w: World, sizes: seq<int>, size: int)
    ensures ServeAll(w, sizes + [size]) == Serve(w, ServeAll(w, sizes), size)
  {
    assert (sizes + [size])[..|sizes|] == sizes;
  }

  /** The world lets a request for `size` bytes through: it is in range and all its messages are taken. */
  ghost predicate Granting(w: World, l: Ledger, size: int) {
    1 <= size <= MAX_BUF_POOL_SIZE && exists j: nat :: AllTaken(w, l.calls, |l.messages|, PagesFor(size), j)
  }

  /** A message of a request for `size` bytes gets no page at all. */
  ghost predicate Refusing(w: World, l: Ledger, size: int) {
    1 <= size <= MAX_BUF_POOL_SIZE && exists j: nat :: RefusedAfter(w, l.calls, |l.messages|, PagesFor(size), j)
  }

  /**
   A write donates exactly the pages it asks for if and only if nothing was donated before and the
   world lets it through; anything refused changes nothing at all.
   */
  lemma ServeDonates(w: World, l: Ledger, size: int)
    requires |l.accepted| == 0
    ensures size >= 1 ==> (|Serve(w, l, size).accepted| == PagesFor(size) <==> Granting(w, l, size))
    ensures size < 1 || size > MAX_BUF_POOL_SIZE ==> Serve(w, l, size) == l
  {
    hide Donate, AllTaken, PagesFor;
    if 1 <= size <= MAX_BUF_POOL_SIZE {
      SuccessIffAllDonated(w, l, PagesFor(size));
      SuccessIffTaken(w, l, PagesFor(size));
    } else if size >= 1 {
      assert PagesFor(size) > 0 by { SomePages(size); }
    }
    if size >= 1 {
      SomePages(size);
    }
  }

  lemma SomePages(size: nat)
    requires size > 0
    ensures PagesFor(size) > 0
  {
  }

  /** For example, the first page asked for is donated when there is one and the firmware takes it. */
  lemma OnePageDonated(w: World)
    requires w.grants(0) && w.replies(0) == Acked
    ensures ServeAll(w, [1]).accepted == [0]
  {
    assert [1][..0] == [];
    assert ServeAll(w, []) == Ledger(0, [], [], [], []);
    assert Batch(w, 0, 1) == [0];
  }

  lemma NothingConserved(w: World)
    ensures Conserved(w, Ledger(0, [], [], [], []))
  {
  }

  /** Over all writes ever made every page is accounted for, and the donated total stays within the limit. */
  lemma {:induction false} PoolWithinLimit(w: World, sizes: seq<int>)
    ensures Conserved(w, ServeAll(w, sizes))
    ensures |ServeAll(w, sizes).accepted| * PAGE_SIZE <= MAX_BUF_POOL_SIZE
  {
    hide Donate, PagesFor, Conserved;
    if sizes == [] {
      assert Conserved(w, Ledger(0, [], [], [], [])) by {
        NothingConserved(w);
      }
    } else {
      var init, size := sizes[..|sizes| - 1], sizes[|sizes| - 1];
      PoolWithinLimit(w, init);
      var l := ServeAll(w, init);
      if |l.accepted| == 0 && 1 <= size <= MAX_BUF_POOL_SIZE {
        DonateConserves(w, l, PagesFor(size));
        SuccessIffAllDonated(w, l, PagesFor(size));
      }
    }
  }

  /** Once the firmware has accepted a page -- even of a donation that then failed -- nothing more can be donated. */
  lemma {:induction false} DonatedOnce(w: World, sizes: seq<int>, more: seq<int>)
    requires |ServeAll(w, sizes).accepted| > 0
    ensures ServeAll(w, sizes + more) == ServeAll(w, sizes)
    decreases |more|
  {
    if more == [] {
      assert sizes + more == sizes;
    } else {
      DonatedOnce(w, sizes, more[..|more| - 1]);
      assert (sizes + more)[..|sizes + more| - 1] == sizes + more[..|more| - 1];
    }
  }

  // ---------------------------------------------------------------- the driver

  datatype Status = Ok | Failed | Refused | Invalid | Panicked

  class N2h {
    const world: World
    const vaddr: array<nat>
    var numPages: nat
    var bufSzAllocated: nat
    var addBufPoolSize: int
    var calls: nat // allocations attempted
    var sent: nat // messages attempted
    ghost var ledger: Ledger

    ghost predicate Valid()
      reads this
    {
      && vaddr.Length == MAX_PAGES_PER_MSG && numPages <= MAX_PAGES_PER_MSG
      && calls == ledger.calls && sent == |ledger.messages|
      && bufSzAllocated == U32(PAGE_SIZE * |ledger.accepted|)
    }

    constructor (world: World)
      ensures Valid() && fresh(vaddr) && this.world == world && ledger == Ledger(0, [], [], [], [])
    {
      this.world := world;
      vaddr := new nat[MAX_PAGES_PER_MSG];
      numPages, bufSzAllocated, addBufPoolSize, calls, sent := 0, 0, 0, 0, 0;
      ledger := Ledger(0, [], [], [], []);
    }

    /** nss_n2h_buf_pool_free */
    method BufPoolFree()
      requires Valid()
      modifies this`ledger
      ensures ledger == old(ledger).(freed := old(ledger.freed) + vaddr[..numPages])
    {
      var i := 0;
      while i < numPages
        invariant i <= numPages
        invariant ledger == old(ledger).(freed := old(ledger.freed) + vaddr[..i])
      {
        assert vaddr[..i + 1] == vaddr[..i] + [vaddr[i]];
        ledger := ledger.(freed := ledger.freed + [vaddr[i]]);
        i := i + 1;
      }
    }

    /** nss_n2h_bufs_cfg_callback for an answer that carries a page size and count, echoed or not. */
    method BufsCfgCallback(acked: bool, pageSize: nat, pages: nat) returns (ok: bool)
      modifies this`bufSzAllocated
      ensures ok == acked
      ensures bufSzAllocated == if acked then U32(old(bufSzAllocated) + pageSize * pages) else old(bufSzAllocated)
    {
      if acked {
        U32Add(pageSize * pages, bufSzAllocated);
        var added := U32(pageSize * pages);
        bufSzAllocated := U32(bufSzAllocated + added);
      }
      ok := acked;
    }

    /** One page into slot `count` of the message, if the allocator has one. */
    method AllocPage(count: nat) returns (granted: bool)
      requires Valid() && count < MAX_PAGES_PER_MSG
      modifies this`calls, this`ledger, vaddr
      ensures Valid() && ledger == old(ledger).(calls := calls) && calls == old(calls) + 1
      ensures granted == world.grants(old(calls))
      ensures vaddr[..count] == old(vaddr[..count])
      ensures granted ==> vaddr[..count + 1] == old(vaddr[..count]) + [old(calls)]
    {
      hide U32;
      var page := calls;
      granted := world.grants(page);
      calls := calls + 1;
      ledger := ledger.(calls := calls);
      if granted {
        vaddr[count] := page;
      }
    }

    /** The inner loop of nss_n2h_buf_pool_cfg: fills the page table; `left` counts the pages still to come. */
    method FillMessage(pages: nat) returns (left: nat)
      requires Valid()
      modifies this`numPages, this`calls, this`ledger, vaddr
      ensures Valid() && ledger == Filled(world, old(ledger), pages)
      ensures vaddr[..numPages] == Message(world, old(ledger), pages)
      ensures left == pages - numPages
    {
      hide U32, Batch, Attempts;
      var count := 0;
      left := pages;
      ghost var start, want := calls, Min(pages, MAX_PAGES_PER_MSG);
      while count < MAX_PAGES_PER_MSG && left > 0
        invariant Valid() && count <= want && left == pages - count
        invariant calls == start + count && ledger == old(ledger).(calls := calls)
        invariant vaddr[..count] + Batch(world, calls, want - count) == Batch(world, start, want)
        invariant count + Attempts(world, calls, want - count) == Attempts(world, start, want)
        modifies this`calls, this`ledger, vaddr
      {
        ghost var got := vaddr[..count];
        BatchStep(world, got, calls, want - count);
        var granted := AllocPage(count);
        if !granted {
          break;
        }
        count := count + 1;
        left := left - 1;
      }
      BatchStep(world, vaddr[..count], calls, 0);
      numPages := count;
    }

    /** nss_n2h_buf_pool_cfg, with a firmware that echoes page size and count. */
    method BufPoolCfg(size: nat) returns (outcome: Outcome)
      requires Valid()
      modifies this`numPages, this`calls, this`sent, this`ledger, this`bufSzAllocated, vaddr
      ensures Valid()
      ensures (ledger, outcome) == Donate(world, old(ledger), PagesFor(size))
    {
      hide U32, Message, Filled, PagesFor;
      var left := PagesFor(size);
      var more := true;
      while more
        invariant Valid()
        invariant more ==> Donate(world, ledger, left) == Donate(world, old(ledger), PagesFor(size))
        invariant !more ==> (ledger, Success) == Donate(world, old(ledger), PagesFor(size))
        decreases more, left
      {
        var pages := left;
        ghost var before := ledger;
        FilledKeeps(world, before, pages);
        left := FillMessage(pages);
        if numPages == 0 && pages > 0 {
          return Panic;
        }
        var reply := world.replies(sent);
        sent := sent + 1;
        ledger := ledger.(messages := ledger.messages + [vaddr[..numPages]]);
        match reply
        case SendFailed =>
          BufPoolFree();
          return Failure;
        case TimedOut =>
          ledger := ledger.(unanswered := ledger.unanswered + vaddr[..numPages]);
          return Failure;
        case Nacked =>
          var ok := BufsCfgCallback(false, PAGE_SIZE, numPages);
          BufPoolFree();
          return Failure;
        case Acked =>
          WrappedSize(|ledger.accepted|, numPages);
          var ok := BufsCfgCallback(true, PAGE_SIZE, numPages);
          ledger := ledger.(accepted := ledger.accepted + vaddr[..numPages]);
          more := left > 0;
      }
      return Success;
    }

    /** `requests` are the numbers written to the sysctl so far. */
    ghost predicate Served(requests: seq<int>)
      reads this
    {
      ledger == ServeAll(world, requests)
    }

    /** The sysctl handler, for a number that was read without error. */
    method BufCfgHandler(value: int, ghost requests: seq<int>) returns (status: Status)
      requires Valid() && Served(requests)
      modifies this, vaddr
      ensures Valid() && Served(requests + [value])
      ensures status.Refused? <==> |old(ledger.accepted)| > 0
      ensures status.Invalid? <==> |old(ledger.accepted)| == 0 && (value < 1 || value > MAX_BUF_POOL_SIZE)
      // what the world decides of a first request in range
      ensures status.Ok? <==> |old(ledger.accepted)| == 0 && Granting(world, old(ledger), value)
      ensures status.Panicked? <==> |old(ledger.accepted)| == 0 && Refusing(world, old(ledger), value)
      ensures status.Ok? ==> bufSzAllocated == PAGE_SIZE * PagesFor(value)
      ensures status.Failed? || status.Panicked? ==> bufSzAllocated < PAGE_SIZE * PagesFor(value)
      ensures status.Ok? || status.Failed? || status.Refused? ==> addBufPoolSize == bufSzAllocated
    {
      hide Donate, ServeAll, PagesFor, Conserved, U32, AllTaken, RefusedAfter;
      ServeAllAppend(world, requests, value);
      PoolWithinLimit(world, requests);
      PoolWithinLimit(world, requests + [value]);
      SizeUnwrapped(|ledger.accepted|);
      SizeUnwrapped(|ServeAll(world, requests + [value]).accepted|);
      addBufPoolSize := value;
      if bufSzAllocated != 0 {
        addBufPoolSize := bufSzAllocated;
        return Refused;
      }
      if 1 <= addBufPoolSize <= MAX_BUF_POOL_SIZE {
        SomePages(value);
        SuccessIffAllDonated(world, ledger, PagesFor(value));
        SuccessIffTaken(world, ledger, PagesFor(value));
        PanicIffRefused(world, ledger, PagesFor(value));
        var outcome := BufPoolCfg(value);
        if outcome.Panic? {
          return Panicked;
        }
        addBufPoolSize := bufSzAllocated;
        return if outcome.Success? then Ok else Failed;
      }
      return Invalid;
    }
  }

  lemma SizeUnwrapped(pages: nat)
    requires pages * PAGE_SIZE <= MAX_BUF_POOL_SIZE
    ensures U32(PAGE_SIZE * pages) == PAGE_SIZE * pages
  {
  }

  lemma WrappedSize(a: nat, b: nat)
    ensures U32(U32(PAGE_SIZE * a) + PAGE_SIZE * b) == U32(PAGE_SIZE * (a + b))
  {
    U32Add(PAGE_SIZE * a, PAGE_SIZE * b);
  }
}
