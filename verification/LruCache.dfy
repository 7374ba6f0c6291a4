/** The cache itself (internal/storage/cache.go): a map into a doubly linked
    list with a sentinel, as in Go's container/list, updated in place and proved
    against the functions of `Lru`. */
module LruCache {
  import opened Digests
  import opened Lru
  import opened Seqs

  class Element<V> {
    var entry: Option<Entry<V>>
    var prev: Element?<V>
    var next: Element?<V>

    constructor (entry: Option<Entry<V>>)
      ensures this.entry == entry
    {
      this.entry, prev, next := entry, null, null;
    }
  }

  /** The elements in a circle: the sentinel stands before the first and after
      the last. */
  ghost function At<V>(root: Element<V>, nodes: seq<Element<V>>, i: int): Element<V> {
    if 0 <= i < |nodes| then nodes[i] else root
  }

  /** Neighbours point at each other. */
  ghost predicate Linked<V>(root: Element<V>, nodes: seq<Element<V>>)
    reads root, nodes
  {
    && (forall i :: -1 <= i < |nodes| ==> At(root, nodes, i).next == At(root, nodes, i + 1))
    && (forall i :: 0 <= i <= |nodes| ==> At(root, nodes, i).prev == At(root, nodes, i - 1))
  }

  ghost function Entries<V>(nodes: seq<Element<V>>): (r: seq<Entry<V>>)
    requires forall i :: 0 <= i < |nodes| ==> nodes[i].entry.Some?
    reads nodes
    ensures |r| == |nodes| && forall i :: 0 <= i < |nodes| ==> nodes[i].entry == Some(r[i])
  {
    if nodes == [] then [] else Entries(nodes[..|nodes|-1]) + [nodes[|nodes|-1].entry.value]
  }

  lemma AlreadyInFront<T>(s: seq<T>, i: nat)
    requires i == 0 < |s|
    ensures s == [s[i]] + (s[..i] + s[i+1..])
  {
  }

  lemma EntriesOf<V>(nodes: seq<Element<V>>, es: seq<Entry<V>>)
    requires |es| == |nodes| && forall i :: 0 <= i < |nodes| ==> nodes[i].entry == Some(es[i])
    ensures Entries(nodes) == es
  {
  }

  lemma AtElsewhere<V>(root: Element<V>, nodes: seq<Element<V>>, i: int)
    requires NoRepeats(nodes) && root !in nodes
    ensures -1 <= i < |nodes| ==> forall j :: -1 <= j < |nodes| && j != i ==> At(root, nodes, j) != At(root, nodes, i)
    ensures 0 <= i <= |nodes| ==> forall j :: 0 <= j <= |nodes| && j != i ==> At(root, nodes, j) != At(root, nodes, i)
  {
  }

  class List<V> {
    const root: Element<V>
    var len: nat
    ghost var nodes: seq<Element<V>>
    ghost var Repr: set<Element<V>>  // the sentinel and every element so far

    ghost predicate Wired()
      reads this, Repr
    {
      && root in Repr && (forall i :: 0 <= i < |nodes| ==> nodes[i] in Repr)
      && root !in nodes && NoRepeats(nodes)
      && Linked(root, nodes)
      && forall i :: 0 <= i < |nodes| ==> nodes[i].entry.Some?
    }

    ghost predicate Valid()
      reads this, Repr
    {
      Wired() && len == |nodes|
    }

    ghost function Contents(): seq<Entry<V>>
      requires Wired()
      reads this, Repr
    {
      Entries(nodes)
    }

    constructor ()
      ensures Valid() && nodes == [] && fresh(Repr)
    {
      var r := new Element<V>(None);
      root, len, nodes, Repr := r, 0, [], {r};
      new;
      root.next, root.prev := root, root;
    }

    method Back() returns (e: Element?<V>)
      requires Valid()
      ensures if nodes == [] then e == null else e == nodes[|nodes|-1]
    {
      assert At(root, nodes, |nodes|).prev == At(root, nodes, |nodes| - 1);
      if len == 0 {
        return null;
      }
      e := root.prev;
    }

    lemma Leading(e: Element<V>, i: nat)
      requires Wired() && i < |nodes| && nodes[i] == e
      ensures root.next == e <==> i == 0
    {
      assert At(root, nodes, -1).next == At(root, nodes, 0);
    }

    method PushFront(entry: Entry<V>) returns (e: Element<V>)
      requires Valid()
      modifies this, Repr
      ensures Valid() && fresh(Repr - old(Repr)) && nodes == [e] + old(nodes)
      ensures Contents() == [entry] + old(Contents())
    {
      hide Linked;
      e := new Element(Some(entry));
      Repr := Repr + {e};
      InsertFront(e);
      len := len + 1;
    }

    /** `e` is the element at position `i`. */
    method MoveToFront(e: Element<V>, ghost i: nat)
      requires Valid() && i < |nodes| && nodes[i] == e
      modifies this`nodes, this`len, Repr
      ensures Valid() && nodes == [e] + (old(nodes)[..i] + old(nodes)[i+1..])
      ensures Contents() == [old(Contents())[i]] + (old(Contents())[..i] + old(Contents())[i+1..])
    {
      Leading(e, i);
      hide Linked, NoRepeats, Entries;
      if root.next == e {
        AlreadyInFront(nodes, i);
        AlreadyInFront(Contents(), i);
        return;
      }
      Move(e, i);
    }

    /** `list.move` to behind the sentinel */
    method Move(e: Element<V>, ghost i: nat)
      requires Wired() && i < |nodes| && nodes[i] == e
      modifies this`nodes, Repr
      ensures Wired() && nodes == [e] + (old(nodes)[..i] + old(nodes)[i+1..])
      ensures Contents() == [old(Contents())[i]] + (old(Contents())[..i] + old(Contents())[i+1..])
    {
      hide Linked, NoRepeats, Entries;
      assert e.entry == Some(Contents()[i]);
      Unlink(e, i);
      InsertFront(e);
    }

    method Remove(e: Element<V>, ghost i: nat)
      requires Valid() && i < |nodes| && nodes[i] == e
      modifies this`nodes, this`len, Repr
      ensures Valid() && nodes == old(nodes)[..i] + old(nodes)[i+1..]
      ensures Contents() == old(Contents())[..i] + old(Contents())[i+1..]
    {
      Unlink(e, i);
      e.next := null;
      e.prev := null;
      len := len - 1;
    }

    method InsertFront(e: Element<V>)
      requires Wired() && e !in nodes && e != root && e in Repr && e.entry.Some?
      modifies this`nodes, Repr
      ensures Wired() && nodes == [e] + old(nodes)
      ensures Contents() == [old(e.entry.value)] + old(Contents())
    {
      ghost var es := [e.entry.value] + Contents();
      Insert(e);
      hide Linked, NoRepeats;
      EntriesOf(nodes, es);
    }

    method Unlink(e: Element<V>, ghost i: nat)
      requires Wired() && i < |nodes| && nodes[i] == e
      modifies this`nodes, Repr
      ensures Wired() && nodes == old(nodes)[..i] + old(nodes)[i+1..] && e !in nodes
      ensures Contents() == old(Contents())[..i] + old(Contents())[i+1..]
      ensures e.entry == old(e.entry)
    {
      ghost var es := Contents()[..i] + Contents()[i+1..];
      Detach(e, i);
      hide Linked, NoRepeats;
      EntriesOf(nodes, es);
    }

    method Insert(e: Element<V>)
      requires Wired() && e !in nodes && e != root && e in Repr && e.entry.Some?
      modifies this`nodes, Repr
      ensures Wired() && nodes == [e] + old(nodes)
      ensures e.entry == old(e.entry)
      ensures forall i :: 0 <= i < |old(nodes)| ==> old(nodes)[i].entry == old(nodes[i].entry)
    {
      hide Entries;
      assert At(root, nodes, -1).next == At(root, nodes, 0);
      e.prev := root;
      e.next := root.next;
      e.prev.next := e;
      e.next.prev := e;
      ghost var was := nodes;
      nodes := [e] + nodes;
      assert forall i :: 1 <= i <= |nodes| ==> At(root, nodes, i) == At(root, was, i - 1);
    }

    method Detach(e: Element<V>, ghost i: nat)
      requires Wired() && i < |nodes| && nodes[i] == e
      modifies this`nodes, Repr
      ensures Wired() && nodes == old(nodes)[..i] + old(nodes)[i+1..] && e !in nodes
      ensures forall k :: 0 <= k < |old(nodes)| ==> old(nodes)[k].entry == old(nodes[k].entry)
    {
      Bypass(e, i);
      ghost var was := nodes;
      nodes := nodes[..i] + nodes[i+1..];
      assert forall j :: -1 <= j < i ==> At(root, nodes, j) == At(root, was, j);
      assert forall j :: i <= j <= |nodes| ==> At(root, nodes, j) == At(root, was, j + 1);
    }

    /** `e.Value = entry` for the element in front */
    method SetFront(e: Element<V>, entry: Entry<V>)
      requires Valid() && nodes != [] && nodes[0] == e
      modifies e
      ensures Valid() && Contents() == [entry] + old(Contents())[1..]
    {
      ghost var es := [entry] + Contents()[1..];
      e.entry := Some(entry);
      EntriesOf(nodes, es);
    }

    /** The neighbours of an element point past it. */
    method Bypass(e: Element<V>, ghost i: nat)
      requires Wired() && i < |nodes| && nodes[i] == e
      modifies Repr
      ensures forall k :: 0 <= k < |nodes| ==> nodes[k].entry == old(nodes[k].entry)
      ensures forall j :: -1 <= j < |nodes| && j != i - 1 ==> At(root, nodes, j).next == At(root, nodes, j + 1)
      ensures forall j :: 0 <= j <= |nodes| && j != i + 1 ==> At(root, nodes, j).prev == At(root, nodes, j - 1)
      ensures At(root, nodes, i - 1).next == At(root, nodes, i + 1)
      ensures At(root, nodes, i + 1).prev == At(root, nodes, i - 1)
    {
      assert At(root, nodes, i) == e;
      AtElsewhere(root, nodes, i - 1);
      AtElsewhere(root, nodes, i + 1);
      assert e.prev == At(root, nodes, i - 1) && e.next == At(root, nodes, i + 1);
      e.prev.next := e.next;
      e.next.prev := e.prev;
    }
  }

  /** The map leads from the key of each entry to the element that holds it. */
  ghost predicate Indexed<V>(items: map<string, Element<V>>, nodes: seq<Element<V>>, es: seq<Entry<V>>) {
    && |nodes| == |es| && Keyed(es)
    && items.Keys == KeysOf(es)
    && forall i :: 0 <= i < |es| ==> es[i].key in items && items[es[i].key] == nodes[i]
  }

  lemma IndexedFind<V>(items: map<string, Element<V>>, nodes: seq<Element<V>>, es: seq<Entry<V>>, key: string)
    requires Indexed(items, nodes, es)
    ensures key in items <==> Find(es, key).Some?
  {
    if key in items {
      var e :| e in es && e.key == key;
    }
  }

  /** Where a key is, and what the specification says about it. */
  lemma Locate<V>(items: map<string, Element<V>>, nodes: seq<Element<V>>, es: seq<Entry<V>>, key: string) returns (i: nat)
    requires Indexed(items, nodes, es) && key in items
    ensures i < |es| && nodes[i] == items[key] && es[i].key == key
    ensures Find(es, key) == Some(es[i])
    ensures Without(es, key) == es[..i] + es[i+1..]
  {
    IndexedFind(items, nodes, es, key);
    i :| 0 <= i < |es| && es[i] == Find(es, key).value;
    WithoutAt(es, i);
  }

  lemma IndexedWithout<V>(items: map<string, Element<V>>, nodes: seq<Element<V>>, es: seq<Entry<V>>, i: nat)
    requires Indexed(items, nodes, es) && i < |es|
    ensures Indexed(items - {es[i].key}, nodes[..i] + nodes[i+1..], es[..i] + es[i+1..])
  {
    var es', nodes' := es[..i] + es[i+1..], nodes[..i] + nodes[i+1..];
    var items' := items - {es[i].key};
    KeysWithout(es, i);
    forall j | 0 <= j < |es'| ensures es'[j].key in items' && items'[es'[j].key] == nodes'[j] {
      var k := if j < i then j else j + 1;
      assert es'[j] == es[k] && nodes'[j] == nodes[k];
    }
    hide KeysOf, Keyed;
  }

  lemma KeysWithout<V>(es: seq<Entry<V>>, i: nat)
    requires Keyed(es) && i < |es|
    ensures Keyed(es[..i] + es[i+1..]) && KeysOf(es[..i] + es[i+1..]) == KeysOf(es) - {es[i].key}
  {
    var es' := es[..i] + es[i+1..];
    assert forall j :: 0 <= j < |es'| ==> es'[j] == es[if j < i then j else j + 1];
    forall k ensures k in KeysOf(es') <==> k in KeysOf(es) && k != es[i].key {
      if k in KeysOf(es) && k != es[i].key {
        var j :| 0 <= j < |es| && es[j].key == k;
        assert es'[if j < i then j else j - 1] == es[j];
      }
    }
  }

  lemma IndexedPrepend<V>(items: map<string, Element<V>>, nodes: seq<Element<V>>, es: seq<Entry<V>>, n: Element<V>, e: Entry<V>)
    requires Indexed(items, nodes, es) && e.key !in items
    ensures Indexed(items[e.key := n], [n] + nodes, [e] + es)
  {
    var es', nodes' := [e] + es, [n] + nodes;
    KeysPrepend(es, e);
    forall i | 0 <= i < |es'| ensures es'[i].key in items[e.key := n] && items[e.key := n][es'[i].key] == nodes'[i] {
      if i > 0 {
        assert es'[i] == es[i-1] && nodes'[i] == nodes[i-1];
      }
    }
    hide KeysOf, Keyed;
  }

  lemma KeysPrepend<V>(es: seq<Entry<V>>, e: Entry<V>)
    requires Keyed(es) && e.key !in KeysOf(es)
    ensures Keyed([e] + es) && KeysOf([e] + es) == {e.key} + KeysOf(es)
  {
    var es' := [e] + es;
    assert forall x :: x in es' <==> x == e || x in es;
    forall i, j | 0 <= i < j < |es'| ensures es'[i].key != es'[j].key {
      assert es'[j] == es[j-1] && es[j-1].key in KeysOf(es);
    }
  }

  class LRUCache<V(==)> {
    const capacity: nat
    var items: map<string, Element<V>>
    var lru: List<V>

    ghost predicate Tidy()
      reads this, lru, lru.Repr
    {
      lru.Valid() && Indexed(items, lru.nodes, lru.Contents())
    }

    ghost predicate Valid()
      reads this, lru, lru.Repr
    {
      Tidy() && |lru.nodes| <= capacity
    }

    /** The entries, most recently used first. */
    ghost function Contents(): seq<Entry<V>>
      requires Tidy()
      reads this, lru, lru.Repr
    {
      lru.Contents()
    }

    constructor (capacity: nat)
      ensures Valid() && Contents() == [] && this.capacity == capacity
      ensures fresh(lru) && fresh(lru.Repr)
    {
      this.capacity := capacity;
      items := map[];
      lru := new List();
    }

    /** `lru.Remove(elem)` and `delete(items, key)` */
    method Drop(elem: Element<V>, ghost i: nat)
      requires Tidy() && i < |lru.nodes| && lru.nodes[i] == elem
      modifies this`items, lru, lru.Repr
      ensures Tidy() && lru.nodes == old(lru.nodes)[..i] + old(lru.nodes)[i+1..] && lru.Repr == old(lru.Repr)
      ensures Contents() == old(Contents())[..i] + old(Contents())[i+1..]
    {
      hide Linked, Indexed, Keyed, NoRepeats;
      IndexedWithout(items, lru.nodes, Contents(), i);
      var key := elem.entry.value.key;
      lru.Remove(elem, i);
      items := items - {key};
    }

    method Promote(elem: Element<V>, ghost i: nat)
      requires Tidy() && i < |lru.nodes| && lru.nodes[i] == elem
      modifies lru, lru.Repr
      ensures Tidy() && |lru.nodes| == |old(lru.nodes)| && lru.nodes[0] == elem && lru.Repr == old(lru.Repr)
      ensures Contents() == [old(Contents())[i]] + (old(Contents())[..i] + old(Contents())[i+1..])
    {
      IndexedPromote(items, lru.nodes, Contents(), i);
      hide Linked, Indexed, Keyed, NoRepeats;
      lru.MoveToFront(elem, i);
    }

    method Get(key: string, now: int) returns (r: Option<V>)
      requires Valid()
      modifies this`items, lru, lru.Repr
      ensures Valid()
      ensures (Contents(), r) == GetSpec(old(Contents()), key, now)
      ensures fresh(lru.Repr - old(lru.Repr))
    {
      hide Linked, Indexed, Keyed, NoRepeats, Find;
      IndexedFind(items, lru.nodes, Contents(), key);
      if key in items {
        var elem := items[key];
        ghost var i := Locate(items, lru.nodes, Contents(), key);
        var entry := elem.entry.value;
        if entry.expiresAt != 0 && now > entry.expiresAt {
          Drop(elem, i);
          return None;
        }
        Promote(elem, i);
        return Some(entry.value);
      }
      return None;
    }

    method Delete(key: string)
      requires Valid()
      modifies this`items, lru, lru.Repr
      ensures Valid()
      ensures Contents() == Without(old(Contents()), key)
      ensures fresh(lru.Repr - old(lru.Repr))
    {
      hide Linked, Indexed, Keyed, NoRepeats, Find;
      IndexedFind(items, lru.nodes, Contents(), key);
      if key in items {
        var elem := items[key];
        ghost var i := Locate(items, lru.nodes, Contents(), key);
        Drop(elem, i);
      } else {
        WithoutMiss(Contents(), key);
      }
    }

    /** The least recently used entry goes. */
    method EvictOldest()
      requires Tidy()
      modifies this`items, lru, lru.Repr
      ensures Tidy() && lru.Repr == old(lru.Repr)
      ensures lru.nodes == if old(lru.nodes) == [] then [] else old(lru.nodes)[..|old(lru.nodes)|-1]
      ensures Contents() == if old(lru.nodes) == [] then [] else old(Contents())[..|old(lru.nodes)|-1]
    {
      hide Linked, Indexed, Keyed, NoRepeats;
      var elem := lru.Back();
      if elem != null {
        Drop(elem, |lru.nodes| - 1);
      }
    }

    method SetWithTTL(key: string, value: V, ttl: int, now: int)
      requires Valid()
      modifies this`items, lru, lru.Repr
      ensures Valid()
      ensures Contents() == SetSpec(capacity, old(Contents()), key, value, ttl, now)
      ensures fresh(lru.Repr - old(lru.Repr))
    {
      hide Linked, Indexed, Keyed, NoRepeats, Find;
      var entry := Entry(key, value, if ttl > 0 then now + ttl else 0);
      IndexedFind(items, lru.nodes, Contents(), key);
      if key in items {
        var elem := items[key];
        ghost var i := Locate(items, lru.nodes, Contents(), key);
        Update(elem, i, entry);
        return;
      }
      Add(entry);
      Trim();
    }

    method Update(elem: Element<V>, ghost i: nat, entry: Entry<V>)
      requires Valid() && i < |lru.nodes| && lru.nodes[i] == elem && entry.key == Contents()[i].key
      modifies lru, lru.Repr
      ensures Valid() && lru.Repr == old(lru.Repr)
      ensures Contents() == [entry] + (old(Contents())[..i] + old(Contents())[i+1..])
    {
      hide Linked, Indexed, Keyed, NoRepeats;
      Promote(elem, i);
      Replace(elem, entry);
    }

    /** Evict if over capacity. */
    method Trim()
      requires Tidy()
      modifies this`items, lru, lru.Repr
      ensures Valid() && Contents() == Take(old(Contents()), capacity) && lru.Repr == old(lru.Repr)
    {
      hide Linked, Indexed, Keyed, NoRepeats, Entries;
      ghost var nodes, es := lru.nodes, Contents();
      while lru.len > capacity
        invariant Tidy() && lru.Repr == old(lru.Repr)
        invariant |lru.nodes| <= |nodes| && lru.nodes == nodes[..|lru.nodes|]
        invariant Contents() == es[..|lru.nodes|]
        invariant |nodes| <= capacity ==> |lru.nodes| == |nodes|
        invariant |nodes| > capacity ==> |lru.nodes| >= capacity
        decreases |lru.nodes|
      {
        EvictOldest();
      }
    }

    method Add(entry: Entry<V>)
      requires Tidy() && entry.key !in items
      modifies this`items, lru, lru.Repr
      ensures Tidy() && fresh(lru.Repr - old(lru.Repr))
      ensures Contents() == [entry] + old(Contents())
    {
      hide Linked, Indexed, Keyed, NoRepeats;
      ghost var nodes, es := lru.nodes, Contents();
      var elem := lru.PushFront(entry);
      IndexedPrepend(items, nodes, es, elem, entry);
      items := items[entry.key := elem];
    }

    /** `elem.Value = entry` for the element in front */
    method Replace(elem: Element<V>, entry: Entry<V>)
      requires Tidy() && lru.nodes != [] && lru.nodes[0] == elem && Contents()[0].key == entry.key
      modifies elem
      ensures Tidy() && |lru.nodes| == |old(lru.nodes)| && lru.Repr == old(lru.Repr)
      ensures Contents() == [entry] + old(Contents())[1..]
    {
      hide Linked, Indexed, Keyed, NoRepeats;
      IndexedReplace(items, lru.nodes, Contents(), entry);
      lru.SetFront(elem, entry);
    }

    method Clear()
      requires Valid()
      modifies this
      ensures Valid() && Contents() == [] && fresh(lru)
    {
      items := map[];
      lru := new List();
    }
  }

  lemma IndexedPromote<V>(items: map<string, Element<V>>, nodes: seq<Element<V>>, es: seq<Entry<V>>, i: nat)
    requires Indexed(items, nodes, es) && i < |es|
    ensures Indexed(items, [nodes[i]] + (nodes[..i] + nodes[i+1..]), [es[i]] + (es[..i] + es[i+1..]))
  {
    IndexedWithout(items, nodes, es, i);
    var key := es[i].key;
    IndexedPrepend(items - {key}, nodes[..i] + nodes[i+1..], es[..i] + es[i+1..], nodes[i], es[i]);
    assert (items - {key})[key := nodes[i]] == items;
  }

  lemma IndexedReplace<V>(items: map<string, Element<V>>, nodes: seq<Element<V>>, es: seq<Entry<V>>, e: Entry<V>)
    requires Indexed(items, nodes, es) && es != [] && es[0].key == e.key
    ensures Indexed(items, nodes, [e] + es[1..])
  {
    var es' := [e] + es[1..];
    assert forall i :: 0 <= i < |es| ==> es'[i].key == es[i].key;
    SameKeys(es, es');
    hide KeysOf;
  }

  lemma SameKeys<V>(a: seq<Entry<V>>, b: seq<Entry<V>>)
    requires |a| == |b| && forall i :: 0 <= i < |a| ==> a[i].key == b[i].key
    ensures KeysOf(a) == KeysOf(b)
  {
    forall k ensures k in KeysOf(a) <==> k in KeysOf(b) {
      if k in KeysOf(a) {
        var i :| 0 <= i < |a| && a[i].key == k;
        assert b[i].key == k;
      }
      if k in KeysOf(b) {
        var i :| 0 <= i < |b| && b[i].key == k;
        assert a[i].key == k;
      }
    }
  }
}
