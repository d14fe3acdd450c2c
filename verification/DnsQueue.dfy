/** The linked queues of source/cdns.c: two pointers and a `next` in each entry. */
module DnsQueue {
  class Entry {
    const id: nat
    const urgent: bool
    var next: Entry?

    constructor (id: nat, urgent: bool)
      ensures this.id == id && this.urgent == urgent && next == null
    {
      this.id, this.urgent, next := id, urgent, null;
    }
  }

  class Queue {
    var head: Entry?
    var tail: Entry?
    ghost var contents: seq<Entry>

    ghost predicate Valid()
      reads this, contents
    {
      && (contents == [] ==> head == null && tail == null)
      && (contents != [] ==> head == contents[0] && tail == contents[|contents| - 1] && contents[|contents| - 1].next == null)
      && (forall i :: 0 <= i < |contents| - 1 ==> contents[i].next == contents[i + 1])
      && (forall i, j :: 0 <= i < j < |contents| ==> contents[i] != contents[j])
    }

    constructor ()
      ensures Valid() && contents == []
    {
      head, tail, contents := null, null, [];
    }

    /** dns_dequeue: the first entry, cut loose, or null. */
    method Dequeue() returns (tmp: Entry?)
      requires Valid()
      modifies this, contents
      ensures Valid()
      ensures old(contents) == [] ==> tmp == null && contents == []
      ensures old(contents) != [] ==> tmp == old(contents[0]) && contents == old(contents[1..]) && tmp.next == null
      ensures tmp !in contents
      ensures forall e :: e in contents ==> e.next == old(e.next)
    {
      if head == null {
        return null;
      }
      tmp := head;
      head := tmp.next;
      if head == null {
        tail := null;
      }
      tmp.next := null;
      contents := contents[1..];
    }

    /** dns_enqueue: behind the last entry. */
    method Enqueue(tmp: Entry)
      requires Valid() && tmp !in contents
      modifies this, contents, tmp
      ensures Valid() && contents == old(contents) + [tmp]
    {
      tmp.next := null;
      if head == null {
        head, tail := tmp, tmp;
      } else {
        tail.next := tmp;
        tail := tmp;
      }
      contents := contents + [tmp];
    }

    /** dns_enqueue_urgent: in front of the first entry. */
    method EnqueueUrgent(tmp: Entry)
      requires Valid() && tmp !in contents
      modifies this, tmp
      ensures Valid() && contents == [tmp] + old(contents)
    {
      tmp.next := head;
      head := tmp;
      if tail == null {
        tail := tmp;
      }
      contents := [tmp] + contents;
    }
  }
}
