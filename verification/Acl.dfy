/**
 MAC access control lists: built from the lines of a file, each of which adds
 an address or removes one, then sorted and searched by bisection.
 */
module Acl {
  import opened Bytes

  datatype Entry = Entry(addr: Addr, vlan: int)

  datatype Line = Skipped | Add(entry: Entry) | Remove(addr: Addr) | Invalid

  // ----- memcmp -----

  function Memcmp(a: seq<byte>, b: seq<byte>): (r: int)
    requires |a| == |b|
    ensures r == 0 <==> a == b
  {
    if a == [] then 0
    else if a[0] != b[0] then a[0] - b[0]
    else
      assert a == [a[0]] + a[1..] && b == [b[0]] + b[1..];
      Memcmp(a[1..], b[1..])
  }

  lemma {:induction false} MemcmpOrder(a: seq<byte>, b: seq<byte>, c: seq<byte>)
    requires |a| == |b| == |c|
    ensures Memcmp(a, b) < 0 <==> Memcmp(b, a) > 0
    ensures Memcmp(a, b) <= 0 && Memcmp(b, c) <= 0 ==> Memcmp(a, c) <= 0
  {
    if a != [] { MemcmpOrder(a[1..], b[1..], c[1..]); }
  }

  predicate Sorted(s: seq<Entry>) {
    forall i, j :: 0 <= i < j < |s| ==> Memcmp(s[i].addr, s[j].addr) <= 0
  }

  /** Insert before the first larger address. */
  function Insert(e: Entry, s: seq<Entry>): (r: seq<Entry>)
    ensures multiset(r) == multiset(s) + multiset{e}
  {
    if s == [] then [e]
    else if Memcmp(e.addr, s[0].addr) <= 0 then [e] + s
    else
      assert s == [s[0]] + s[1..];
      [s[0]] + Insert(e, s[1..])
  }

  lemma {:induction false} InsertSorted(e: Entry, s: seq<Entry>)
    requires Sorted(s)
    ensures Sorted(Insert(e, s))
  {
    if s != [] {
      if Memcmp(e.addr, s[0].addr) <= 0 {
        forall j | 0 <= j < |s| ensures Memcmp(e.addr, s[j].addr) <= 0 {
          MemcmpOrder(e.addr, s[0].addr, s[j].addr);
        }
      } else {
        InsertSorted(e, s[1..]);
        var r := Insert(e, s[1..]);
        MemcmpOrder(s[0].addr, e.addr, e.addr);
        MemcmpOrder(e.addr, s[0].addr, e.addr);
        forall j | 0 <= j < |r| ensures Memcmp(s[0].addr, r[j].addr) <= 0 {
          assert r[j] in multiset(r);
          assert r[j] == e || r[j] in s[1..];
        }
      }
    }
  }

  /** Stands for qsort: some sorted arrangement of the entries. */
  function Arranged(s: seq<Entry>): (r: seq<Entry>)
    ensures multiset(r) == multiset(s)
  {
    if s == [] then []
    else
      assert s == [s[0]] + s[1..];
      Insert(s[0], Arranged(s[1..]))
  }

  lemma {:induction false} ArrangedSorted(s: seq<Entry>)
    ensures Sorted(Arranged(s))
  {
    if s != [] {
      ArrangedSorted(s[1..]);
      InsertSorted(s[0], Arranged(s[1..]));
    }
  }

  // ----- what the lines say -----

  function Without(acl: seq<Entry>, a: Addr): seq<Entry> {
    if acl == [] then []
    else
      var n := |acl| - 1;
      Without(acl[..n], a) + if acl[n].addr == a then [] else [acl[n]]
  }

  function AfterLines(acl: seq<Entry>, lines: seq<Line>): seq<Entry> {
    if lines == [] then acl
    else
      var n := |lines| - 1;
      var before := AfterLines(acl, lines[..n]);
      match lines[n]
      case Add(e) => before + [e]
      case Remove(a) => Without(before, a)
      case _ => before
  }

  predicate AllValid(lines: seq<Line>) {
    Invalid !in lines
  }

  /** No line from k on removes the address. */
  predicate NotRemovedFrom(lines: seq<Line>, k: int, a: Addr) {
    forall j :: 0 <= j < |lines| && k <= j ==> lines[j] != Remove(a)
  }

  /** The entry was there from the start or some line adds it, and its address is not removed later. */
  predicate Stays(acl: seq<Entry>, lines: seq<Line>, e: Entry) {
    (e in acl && NotRemovedFrom(lines, 0, e.addr))
    || exists k :: 0 <= k < |lines| && lines[k] == Add(e) && NotRemovedFrom(lines, k, e.addr)
  }

  lemma {:induction false} WithoutExactly(acl: seq<Entry>, a: Addr, e: Entry)
    ensures e in Without(acl, a) <==> e in acl && e.addr != a
  {
    if acl != [] {
      WithoutExactly(acl[..|acl| - 1], a, e);
      assert acl == acl[..|acl| - 1] + [acl[|acl| - 1]];
    }
  }

  /** The list after the lines holds exactly the entries that stay. */
  lemma {:induction false} AfterLinesExactly(acl: seq<Entry>, lines: seq<Line>, e: Entry)
    ensures e in AfterLines(acl, lines) <==> Stays(acl, lines, e)
  {
    if lines != [] {
      var n := |lines| - 1;
      AfterLinesExactly(acl, lines[..n], e);
      StaysStep(acl, lines[..n], lines[n], e);
      assert lines == lines[..n] + [lines[n]];
      if lines[n].Remove? {
        WithoutExactly(AfterLines(acl, lines[..n]), lines[n].addr, e);
      }
    }
  }

  lemma StaysStep(acl: seq<Entry>, lines: seq<Line>, l: Line, e: Entry)
    ensures Stays(acl, lines + [l], e) <==> l == Add(e) || (Stays(acl, lines, e) && l != Remove(e.addr))
  {
    var all := lines + [l];
    assert all[|lines|] == l;
    assert forall k :: 0 <= k < |lines| ==> all[k] == lines[k];
    if l == Add(e) {
      assert NotRemovedFrom(all, |lines|, e.addr);
    }
    if Stays(acl, lines, e) && l != Remove(e.addr) {
      if !(e in acl && NotRemovedFrom(lines, 0, e.addr)) {
        var k :| 0 <= k < |lines| && lines[k] == Add(e) && NotRemovedFrom(lines, k, e.addr);
        assert all[k] == Add(e) && NotRemovedFrom(all, k, e.addr);
      }
    }
    if Stays(acl, all, e) && l != Add(e) {
      if !(e in acl && NotRemovedFrom(all, 0, e.addr)) {
        var k :| 0 <= k < |all| && all[k] == Add(e) && NotRemovedFrom(all, k, e.addr);
        assert lines[k] == Add(e) && NotRemovedFrom(lines, k, e.addr);
      }
    }
  }

  // ----- the list -----

  class MacList {
    var acl: seq<Entry>

    constructor ()
      ensures acl == []
    {
      acl := [];
    }

    /** Delete every entry for the address, in place. */
    method RemoveAll(addr: Addr)
      modifies this
      ensures acl == Without(old(acl), addr)
    {
      ghost var was := acl;
      ghost var seen := 0;
      var i: nat := 0;
      assert was[..0] == [];
      while i < |acl|
        invariant i <= |acl| && seen + (|acl| - i) == |was| && seen >= 0
        invariant acl[..i] == Without(was[..seen], addr) && acl[i..] == was[seen..]
        decreases |acl| - i
      {
        assert was[..seen + 1][..seen] == was[..seen] && acl[i] == was[seen];
        assert acl[i + 1..] == acl[i..][1..] == was[seen + 1..];
        ghost var kept, later := acl[..i], acl[i + 1..];
        seen := seen + 1;
        if acl[i].addr == addr {
          acl := acl[..i] + acl[i + 1..];
          assert acl[..i] == kept && acl[i..] == later;
        } else {
          assert acl[..i + 1] == kept + [acl[i]];
          i := i + 1;
        }
      }
      assert was[..seen] == was && acl[..i] == acl;
    }

    /** hostapd_config_read_maclist on the lines of the file. */
    method Read(lines: seq<Line>) returns (ok: bool)
      modifies this
      ensures ok <==> AllValid(lines)
      ensures ok ==> Sorted(acl) && multiset(acl) == multiset(AfterLines(old(acl), lines))
    {
      ghost var was := acl;
      for n := 0 to |lines|
        invariant acl == AfterLines(was, lines[..n]) && AllValid(lines[..n])
      {
        assert lines[..n + 1][..n] == lines[..n] && lines[..n + 1] == lines[..n] + [lines[n]];
        match lines[n] {
          case Skipped =>
          case Invalid =>
            return false;
          case Remove(a) =>
            RemoveAll(a);
          case Add(e) =>
            acl := acl + [e];
        }
      }
      assert lines[..|lines|] == lines;
      ArrangedSorted(acl);
      acl := Arranged(acl);
      return true;
    }
  }

  predicate InList(s: seq<Entry>, a: Addr) {
    exists e :: e in s && e.addr == a
  }

  /** hostapd_maclist_found */
  method MaclistFound(list: seq<Entry>, addr: Addr) returns (found: bool, vlan: int)
    requires Sorted(list)
    ensures found <==> InList(list, addr)
    ensures found ==> Entry(addr, vlan) in list
  {
    var start: int, end: int := 0, |list| - 1;
    while start <= end
      invariant 0 <= start <= end + 1 <= |list|
      invariant forall i :: 0 <= i < |list| && !(start <= i <= end) ==> list[i].addr != addr
    {
      var middle := (start + end) / 2;
      var res := Memcmp(list[middle].addr, addr);
      if res == 0 {
        return true, list[middle].vlan;
      }
      NotThere(list, addr, middle);
      if res < 0 {
        start := middle + 1;
      } else {
        end := middle - 1;
      }
    }
    return false, 0;
  }

  lemma NotThere(list: seq<Entry>, addr: Addr, m: nat)
    requires Sorted(list) && m < |list| && Memcmp(list[m].addr, addr) != 0
    ensures Memcmp(list[m].addr, addr) < 0 ==> forall i :: 0 <= i <= m ==> list[i].addr != addr
    ensures Memcmp(list[m].addr, addr) > 0 ==> forall i :: m <= i < |list| ==> list[i].addr != addr
  {
    MemcmpOrder(list[m].addr, addr, addr);
    MemcmpOrder(addr, list[m].addr, addr);
  }

  /**
   Reading and searching together: an address is found exactly when some entry
   for it was added, or there from the start, and its address not removed
   later; and the VLAN reported is that of such an entry.
   */
  method ReadAndFind(list: MacList, lines: seq<Line>, addr: Addr) returns (ok: bool, found: bool, vlan: int)
    modifies list
    ensures ok <==> AllValid(lines)
    ensures ok ==> (found <==> exists e :: Stays(old(list.acl), lines, e) && e.addr == addr)
    ensures ok && found ==> Stays(old(list.acl), lines, Entry(addr, vlan))
  {
    found, vlan := false, 0;
    ghost var was := list.acl;
    ok := list.Read(lines);
    if ok {
      found, vlan := MaclistFound(list.acl, addr);
      forall e ensures e in list.acl <==> Stays(was, lines, e) {
        assert e in list.acl <==> e in multiset(list.acl);
        assert e in AfterLines(was, lines) <==> e in multiset(AfterLines(was, lines));
        AfterLinesExactly(was, lines, e);
      }
    }
  }
}
