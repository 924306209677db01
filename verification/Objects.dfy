// Kernel nodes and the tail queue they are linked on: sdk/inc/sys/queue.h as
// instantiated in sys/hive/inc/ob/dir.h.
module Objects {

  datatype Kind = KNone | KDir | KClockDevice

  // A TAILQ address of a next field: that of the head or of an element.
  datatype Link = AtHead | After(k: Knode)

  class Knode {
    const name: string
    const kind: Kind
    const data: Directory?
    var ref: int

    // dir_link
    var next: Knode?
    var prev: Link

    constructor (name: string, kind: Kind, data: Directory?)
      ensures this.name == name && this.kind == kind && this.data == data && ref == 1
    {
      this.name, this.kind, this.data := name, kind, data;
      ref, next, prev := 1, null, AtHead;
    }
  }

  class Tailq {
    var first: Knode?
    var last: Link
    var nelem: nat

    // The elements in order.
    ghost var elems: seq<Knode>

    ghost predicate Valid()
      reads this, elems
    {
      && nelem == |elems| && Distinct(elems)
      && first == NextAfter(elems, -1) && last == LinkBefore(elems, |elems|)
      && forall i :: 0 <= i < |elems| ==> Linked(elems, i)
    }

    // TAILQ_INIT
    constructor ()
      ensures Valid() && elems == []
    {
      first, last, nelem, elems := null, AtHead, 0, [];
    }

    // TAILQ_INSERT_HEAD
    method InsertHead(elm: Knode)
      requires Valid() && elm !in elems
      modifies this, elm, elems
      ensures Valid() && elems == [elm] + old(elems)
    {
      elm.next := first;
      if elm.next != null {
        first.prev := After(elm);
      } else {
        last := After(elm);
      }
      first := elm;
      elm.prev := AtHead;
      nelem := nelem + 1;
      ghost var before := elems;
      elems := [elm] + elems;
      forall i | 0 <= i < |elems| ensures Linked(elems, i) {
        if i > 0 { assert elems[i] == before[i - 1] && old(Linked(elems, i - 1)); }
      }
    }

    // TAILQ_INSERT_TAIL: the store goes through tqh_last.
    method InsertTail(elm: Knode)
      requires Valid() && elm !in elems
      modifies this, elm, elems
      ensures Valid() && elems == old(elems) + [elm] && nelem == old(nelem) + 1
    {
      elm.next := null;
      elm.prev := last;
      match last {
        case AtHead => first := elm;
        case After(k) => k.next := elm;
      }
      last := After(elm);
      nelem := nelem + 1;
      ghost var before := elems;
      elems := elems + [elm];
      forall i | 0 <= i < |elems| ensures Linked(elems, i) {
        if i < |before| { assert elems[i] == before[i] && old(Linked(elems, i)); }
      }
    }

    // TAILQ_INSERT_AFTER
    method InsertAfter(listelm: Knode, elm: Knode, ghost at: nat)
      requires Valid() && elm !in elems && at < |elems| && elems[at] == listelm
      modifies this, elm, elems
      ensures Valid() && elems == Inserted(old(elems), at + 1, elm)
    {
      hide Inserted;
      ghost var before := elems;
      assert Linked(elems, at);
      elm.next := listelm.next;
      if elm.next != null {
        elm.next.prev := After(elm);
      } else {
        last := After(elm);
      }
      listelm.next := elm;
      elm.prev := After(listelm);
      nelem := nelem + 1;
      elems := Inserted(elems, at + 1, elm);
      InsertedAt(before, at + 1, elm);
      assert old(Linked(elems, at)) && (at + 1 < |before| ==> old(Linked(elems, at + 1)));
      forall i | 0 <= i < |elems| ensures Linked(elems, i) {
        if i <= at {
          assert old(Linked(elems, i));
        } else if i > at + 1 {
          assert old(Linked(elems, i - 1));
        }
      }
    }

    // TAILQ_REMOVE: the store goes through the element's tqe_prev.
    method Remove(elm: Knode, ghost at: nat)
      requires Valid() && at < |elems| && elems[at] == elm
      modifies this, elems
      ensures Valid() && elems == Removed(old(elems), at)
    {
      hide Removed;
      ghost var before := elems;
      assert Linked(elems, at);
      if elm.next != null {
        elm.next.prev := elm.prev;
      } else {
        last := elm.prev;
      }
      match elm.prev {
        case AtHead => first := elm.next;
        case After(k) => k.next := elm.next;
      }
      nelem := nelem - 1;
      elems := Removed(elems, at);
      RemovedAt(before, at);
      forall i | 0 <= i < |elems| ensures Linked(elems, i) {
        assert old(Linked(elems, if i < at then i else i + 1));
      }
    }
  }

  ghost predicate Distinct(s: seq<Knode>) {
    forall i, j :: 0 <= i < j < |s| ==> s[i] != s[j]
  }

  // The element after position i, and the address of the next field before it.
  ghost function NextAfter(s: seq<Knode>, i: int): Knode? {
    if 0 <= i + 1 < |s| then s[i + 1] else null
  }

  ghost function LinkBefore(s: seq<Knode>, i: int): Link {
    if 0 < i <= |s| then After(s[i - 1]) else AtHead
  }

  ghost predicate Linked(s: seq<Knode>, i: int)
    requires 0 <= i < |s|
    reads s[i]
  {
    s[i].next == NextAfter(s, i) && s[i].prev == LinkBefore(s, i)
  }

  ghost function Inserted(s: seq<Knode>, at: nat, k: Knode): seq<Knode>
    requires at <= |s|
  {
    s[..at] + [k] + s[at..]
  }

  ghost function Removed(s: seq<Knode>, at: nat): seq<Knode>
    requires at < |s|
  {
    s[..at] + s[at + 1..]
  }

  lemma InsertedAt(s: seq<Knode>, at: nat, k: Knode)
    requires at <= |s| && Distinct(s) && k !in s
    ensures var t := Inserted(s, at, k);
      && Distinct(t) && |t| == |s| + 1 && t[at] == k
      && (forall i :: 0 <= i < at ==> t[i] == s[i]) && forall i :: at < i < |t| ==> t[i] == s[i - 1]
  {
  }

  lemma RemovedAt(s: seq<Knode>, at: nat)
    requires at < |s| && Distinct(s)
    ensures var t := Removed(s, at);
      && Distinct(t) && |t| == |s| - 1 && s[at] !in t
      && (forall i :: 0 <= i < at ==> t[i] == s[i]) && forall i :: at <= i < |t| ==> t[i] == s[i + 1]
  {
  }

  // struct knode_dir
  class Directory {
    const list: Tailq
    var entryCount: nat

    ghost predicate Valid()
      reads this, list, list.elems
    {
      list.Valid() && entryCount == list.nelem
    }

    constructor ()
      ensures Valid() && list.elems == [] && fresh(list)
    {
      list := new Tailq();
      entryCount := 0;
    }

    // TAILQ_INSERT_TAIL and the entry count of ob_dir_append.
    method Append(knp: Knode)
      requires Valid() && knp !in list.elems
      modifies this, list, list.elems, knp
      ensures Valid() && list.elems == old(list.elems) + [knp]
    {
      list.InsertTail(knp);
      entryCount := entryCount + 1;
    }
  }
}
