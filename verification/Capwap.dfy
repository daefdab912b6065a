/**
 The CAPWAP tunnel table: handles installed and retired under a lock while any number of
 senders are between taking and giving back a reference.

 A sender holds the lock only while it takes its reference; it gives it back without the
 lock, looking the handle up in the table again. `Interfere` runs whatever sections the
 other threads go through in between.
 */
module Capwap {

  const MAX_DYNAMIC_INTERFACES: nat := 64
  const DYNAMIC_IF_START: nat := 24
  const MSG_TYPE_MAX: nat := 9

  datatype Unregistered = NotCapwap | NullPointer | Busy | Done

  datatype TxStatus = Success | Failure | FailureQueue | NotReady | BadParam

  /** nss_capwap_handle */
  class Handle {
    const ifNum: nat
    var refcnt: nat

    constructor (ifNum: nat)
      ensures this.ifNum == ifNum && refcnt == 0
    {
      this.ifNum := ifNum;
      refcnt := 0;
    }
  }

  /** The threads that hold a reference on `h`. */
  ghost function Holders(senders: map<nat, Handle>, h: Handle): set<nat> {
    set t | t in senders && senders[t] == h
  }

  lemma HolderJoins(senders: map<nat, Handle>, t: nat, h: Handle)
    requires t !in senders
    ensures |Holders(senders[t := h], h)| == |Holders(senders, h)| + 1
    ensures forall g: Handle {:trigger Holders(senders, g)} ::
              g != h ==> Holders(senders[t := h], g) == Holders(senders, g)
  {
    assert Holders(senders[t := h], h) == Holders(senders, h) + {t};
  }

  lemma HolderLeaves(senders: map<nat, Handle>, t: nat)
    requires t in senders
    ensures var h := senders[t];
            && |Holders(senders - {t}, h)| == |Holders(senders, h)| - 1
            && forall g: Handle {:trigger Holders(senders, g)} ::
                 g != h ==> Holders(senders - {t}, g) == Holders(senders, g)
  {
    var h := senders[t];
    assert Holders(senders, h) == Holders(senders - {t}, h) + {t};
  }

  // ---------------------------------------------------------------- the table on values

  /** Which table entries are in use, and which entry each thread holds a reference on. */
  datatype Table = Table(installed: set<nat>, holders: map<nat, nat>)

  /** The atomic sections a thread can go through. */
  datatype Move =
    | Take(thread: nat, entry: nat)
    | Give(thread: nat)
    | Install(entry: nat, memory: bool)
    | Remove(entry: nat)

  function Apply(v: Table, m: Move): Table {
    match m
    case Take(t, i) => if t !in v.holders && i in v.installed then v.(holders := v.holders[t := i]) else v
    case Give(t) => v.(holders := v.holders - {t})
    case Install(i, memory) =>
      if memory && i < MAX_DYNAMIC_INTERFACES then v.(installed := v.installed + {i}) else v
    case Remove(i) => if i in v.holders.Values then v else v.(installed := v.installed - {i})
  }

  function ApplyAll(v: Table, ms: seq<Move>): Table {
    if ms == [] then v else Apply(ApplyAll(v, ms[..|ms| - 1]), ms[|ms| - 1])
  }

  lemma ApplyAppend(v: Table, ms: seq<Move>, m: Move)
    ensures ApplyAll(v, ms + [m]) == Apply(ApplyAll(v, ms), m)
  {
    assert (ms + [m])[..|ms|] == ms;
  }

  /** None of the sections is thread `me`'s. */
  ghost predicate Foreign(ms: seq<Move>, me: nat) {
    forall k :: 0 <= k < |ms| && (ms[k].Take? || ms[k].Give?) ==> ms[k].thread != me
  }

  ghost predicate HeldInstalled(v: Table) {
    forall t :: t in v.holders ==> v.holders[t] in v.installed
  }

  /** Whatever the other threads do, an entry that is held stays in the table, with its holder. */
  lemma {:induction false} HeldStaysInstalled(v: Table, ms: seq<Move>, me: nat)
    requires HeldInstalled(v) && me in v.holders && Foreign(ms, me)
    ensures var v' := ApplyAll(v, ms);
            HeldInstalled(v') && me in v'.holders && v'.holders[me] == v.holders[me] && v.holders[me] in v'.installed
  {
    if ms != [] {
      var init, m := ms[..|ms| - 1], ms[|ms| - 1];
      HeldStaysInstalled(v, init, me);
      var u := ApplyAll(v, init);
      if m.Remove? {
        assert u.holders[me] in u.holders.Values;
      }
    }
  }

  class TunnelTable {
    const hdl: array<Handle?>
    var senders: map<nat, Handle>  // threads between their increment and their decrement
    ghost var retired: set<Handle>

    ghost function Installed(): set<Handle>
      reads this, hdl
    {
      set i | 0 <= i < hdl.Length && hdl[i] != null :: hdl[i]
    }

    ghost predicate Valid()
      reads this, hdl, Installed()
    {
      && hdl.Length == MAX_DYNAMIC_INTERFACES
      && (forall i :: 0 <= i < hdl.Length && hdl[i] != null ==>
           && hdl[i].ifNum == i
           && hdl[i] !in retired
           && hdl[i].refcnt == |Holders(senders, hdl[i])|)
      && (forall t :: t in senders ==> senders[t].ifNum < hdl.Length && hdl[senders[t].ifNum] == senders[t])
    }

    ghost function View(): (v: Table)
      reads this, hdl, Installed()
    {
      Table(set i | 0 <= i < hdl.Length && hdl[i] != null :: i, map t | t in senders :: senders[t].ifNum)
    }

    lemma InstalledNow()
      ensures forall i: nat :: i in View().installed <==> i < hdl.Length && hdl[i] != null
    {
    }

    constructor ()
      ensures Valid() && senders == map[] && retired == {} && forall i :: 0 <= i < hdl.Length ==> hdl[i] == null
      ensures fresh(hdl)
    {
      hdl := new Handle?[MAX_DYNAMIC_INTERFACES](_ => null);
      senders, retired := map[], {};
    }

    /** A reference held by some thread keeps its handle in the table, counted and not retired. */
    lemma HeldIsInstalled(t: nat)
      requires Valid() && t in senders
      ensures var h := senders[t];
              && h.ifNum < hdl.Length && hdl[h.ifNum] == h && h !in retired
              && h.refcnt == |Holders(senders, h)| > 0
    {
      assert t in Holders(senders, senders[t]);
    }

    /** nss_capwap_refcnt_inc, by thread `t`. */
    method Hold(t: nat, h: Handle)
      requires Valid() && t !in senders && h.ifNum < hdl.Length && hdl[h.ifNum] == h
      modifies this`senders, h`refcnt
      ensures Valid() && senders == old(senders)[t := h] && h.refcnt == old(h.refcnt) + 1
    {
      HolderJoins(senders, t, h);
      h.refcnt := h.refcnt + 1;
      senders := senders[t := h];
    }

    /** The locked section of nss_capwap_tx_msg: look the tunnel up and take a reference. */
    method TakeReference(t: nat, i: nat) returns (ok: bool)
      requires Valid() && i < hdl.Length && t !in senders
      modifies this`senders, Installed()
      ensures Valid() && ok == (hdl[i] != null)
      ensures senders == if ok then old(senders)[t := hdl[i]] else old(senders)
      ensures ok ==> hdl[i].refcnt == old(hdl[i].refcnt) + 1
      ensures View() == Apply(old(View()), Take(t, i))
    {
      InstalledNow();
      ghost var was := View();
      if hdl[i] == null {
        return false;
      }
      Hold(t, hdl[i]);
      assert View().installed == was.installed;
      return true;
    }

    /** nss_capwap_refcnt_dec: no lock, and the handle is looked up anew. */
    method GiveBackReference(t: nat, i: nat)
      requires Valid() && t in senders && senders[t].ifNum == i
      modifies this`senders, Installed()
      ensures Valid() && senders == old(senders) - {t}
      ensures old(senders[t]).refcnt == old(senders[t].refcnt) - 1
      ensures View() == Apply(old(View()), Give(t))
    {
      HeldIsInstalled(t);
      var h := hdl[i];
      HolderLeaves(senders, t);
      h.refcnt := h.refcnt - 1;
      senders := senders - {t};
    }

    /** nss_capwap_instance_alloc; `memory` is whether the allocation succeeds. */
    method InstanceAlloc(i: nat, memory: bool) returns (h: Handle?)
      requires Valid() && i < hdl.Length
      modifies hdl
      ensures Valid()
      ensures h != null <==> memory && old(hdl[i]) == null
      ensures h != null ==> fresh(h) && h.ifNum == i && h.refcnt == 0 && hdl[..] == old(hdl[..])[i := h]
      ensures h == null ==> hdl[..] == old(hdl[..])
      ensures View() == Apply(old(View()), Install(i, memory))
    {
      ghost var was := View();
      InstalledNow();
      if !memory {
        return null;
      }
      var n := new Handle(i);
      if hdl[i] != null {
        assert i in was.installed && was.installed + {i} == was.installed;
        return null;
      }
      assert Holders(senders, n) == {};
      hdl[i] := n;
      InstalledNow();
      assert View().installed == was.installed + {i};
      return n;
    }

    /**
     The locked section of nss_capwap_data_unregister on a registered tunnel: the handle
     leaves the table only when nobody holds a reference on it.
     */
    method Retire(i: nat) returns (h: Handle?)
      requires Valid() && i < hdl.Length && hdl[i] != null
      modifies hdl, this`retired
      ensures Valid()
      ensures h != null <==> Holders(senders, old(hdl[i])) == {}
      ensures h != null ==> h == old(hdl[i]) && hdl[..] == old(hdl[..])[i := null] && retired == old(retired) + {h}
      ensures h == null ==> hdl[..] == old(hdl[..]) && retired == old(retired)
      ensures View() == Apply(old(View()), Remove(i))
    {
      ghost var was := View();
      InstalledNow();
      HoldersOf(i);
      if hdl[i].refcnt != 0 {
        return null;
      }
      h := hdl[i];
      forall t | t in senders
        ensures senders[t] != h
      {
        if senders[t] == h {
          HeldIsInstalled(t);
        }
      }
      hdl[i] := null;
      retired := retired + {h};
      InstalledNow();
      assert View().installed == was.installed - {i};
    }

    /** Everything other threads do, section by section, while thread `me` is elsewhere. */
    method Interfere(ms: seq<Move>, me: nat)
      requires Valid() && Foreign(ms, me)
      modifies this, hdl, Installed()
      ensures Valid() && View() == ApplyAll(old(View()), ms) && old(retired) <= retired
      ensures me in senders <==> me in old(senders)
      ensures me in senders ==> senders[me] == old(senders[me])
      ensures fresh(Installed() - old(Installed()))
    {
      hide Apply;
      var n := 0;
      assert ms[..0] == [];
      while n < |ms|
        invariant n <= |ms| && Valid() && View() == ApplyAll(old(View()), ms[..n]) && old(retired) <= retired
        invariant me in senders <==> me in old(senders)
        invariant me in senders ==> senders[me] == old(senders[me])
        invariant fresh(Installed() - old(Installed()))
      {
        assert ms[..n + 1] == ms[..n] + [ms[n]];
        ApplyAppend(old(View()), ms[..n], ms[n]);
        Section(ms[n], me);
        n := n + 1;
      }
      assert ms[..n] == ms;
    }

    /** One atomic section of some other thread. */
    method Section(m: Move, me: nat)
      requires Valid() && Foreign([m], me)
      modifies this, hdl, Installed()
      ensures Valid() && View() == Apply(old(View()), m) && old(retired) <= retired
      ensures me in senders <==> me in old(senders)
      ensures me in senders ==> senders[me] == old(senders[me])
      ensures fresh(Installed() - old(Installed()))
    {
      assert [m][0] == m;
      match m {
        case Take(t, i) =>
          if t !in senders && i < hdl.Length {
            var ok := TakeReference(t, i);
          }
        case Give(t) =>
          if t in senders {
            GiveBackReference(t, senders[t].ifNum);
          }
        case Install(i, memory) =>
          if i < hdl.Length {
            var h := InstanceAlloc(i, memory);
          }
        case Remove(i) =>
          if i < hdl.Length && hdl[i] != null {
            var h := Retire(i);
          }
      }
    }

    /** A handle has holders exactly when some thread holds its entry. */
    lemma HoldersOf(i: nat)
      requires Valid() && i < hdl.Length && hdl[i] != null
      ensures Holders(senders, hdl[i]) != {} <==> i in View().holders.Values
    {
      if i in View().holders.Values {
        var t :| t in senders && senders[t].ifNum == i;
        assert t in Holders(senders, hdl[i]);
      }
      if t :| t in Holders(senders, hdl[i]) {
        assert View().holders[t] == i;
      }
    }

    /**
     nss_capwap_tx_msg as run by thread `me`. `capwapIf` is nss_capwap_verify_if_num; `ready`,
     `lenOk`, `skb` and `sent` are the core state, the length check, the skb allocation and the
     result of nss_core_send_buffer. Other threads run `before` ahead of the locked lookup and
     `during` while the reference is held.
     */
    method TxMsg(me: nat, interface: nat, capwapIf: bool, msgType: nat, ready: bool, lenOk: bool, skb: bool,
                 sent: TxStatus, before: seq<Move>, during: seq<Move>)
      returns (status: TxStatus, found: bool)
      requires Valid() && me !in senders && Foreign(before, me) && Foreign(during, me)
      requires capwapIf ==> DYNAMIC_IF_START <= interface < DYNAMIC_IF_START + MAX_DYNAMIC_INTERFACES
      requires sent == Success || sent == Failure || sent == FailureQueue
      modifies this, hdl, Installed()
      ensures Valid() && me !in senders && old(retired) <= retired
      ensures found <==> capwapIf && msgType < MSG_TYPE_MAX
                         && interface - DYNAMIC_IF_START in ApplyAll(old(View()), before).installed
      ensures status == if !found then BadParam else if !ready then NotReady else if !lenOk then BadParam
                        else if !skb then Failure else sent
      ensures capwapIf && msgType < MSG_TYPE_MAX ==>
                View() == TxTable(ApplyAll(old(View()), before), me, interface - DYNAMIC_IF_START, during)
      ensures !(capwapIf && msgType < MSG_TYPE_MAX) ==> View() == old(View())
    {
      found := false;
      if !capwapIf {
        return BadParam, false;
      }
      if msgType >= MSG_TYPE_MAX {
        return BadParam, false;
      }
      var i := interface - DYNAMIC_IF_START;
      Interfere(before, me);
      found := TakeReference(me, i);
      if !found {
        return BadParam, false;
      }
      Interfere(during, me);
      status := if !ready then NotReady else if !lenOk then BadParam else if !skb then Failure else sent;
      GiveBackReference(me, i);
    }

    /**
     nss_capwap_data_unregister. Without an entry the source follows a null pointer; other threads
     run `after` once the lock is released.
     */
    method DataUnregister(me: nat, capwapIf: bool, i: nat, after: seq<Move>) returns (r: Unregistered)
      requires Valid() && i < hdl.Length && Foreign(after, me)
      modifies this, hdl, Installed()
      ensures Valid() && old(retired) <= retired
      ensures r == if !capwapIf then NotCapwap
                   else if i !in old(View()).installed then NullPointer
                   else if i in old(View()).holders.Values then Busy
                   else Done
      ensures r.Done? ==> old(hdl[i]) in retired
      ensures View() == if r.NotCapwap? || r.NullPointer? then old(View())
                        else ApplyAll(Apply(old(View()), Remove(i)), after)
    {
      if !capwapIf {
        return NotCapwap;
      }
      if hdl[i] == null {
        return NullPointer;
      }
      HoldersOf(i);
      var h := Retire(i);
      Interfere(after, me);
      return if h != null then Done else Busy;
    }
  }

  /** The table after a send by `me` on entry `i` during which other threads ran `during`. */
  function TxTable(v: Table, me: nat, i: nat, during: seq<Move>): Table {
    if i in v.installed then Apply(ApplyAll(Apply(v, Take(me, i)), during), Give(me)) else v
  }
}
