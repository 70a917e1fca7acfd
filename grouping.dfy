/** The grouping loop of the interfaces report: the flat list of interface
    records becomes a dictionary from hostname to that host's records. The
    dictionary keeps insertion order, so its keys come out in the order in
    which each hostname is first seen. */
module Grouping {
  import opened Interfaces
  import opened Comprehension

  /** An insertion-ordered dictionary from hostname to records: `hosts` lists
      the keys of `groups` in the order they were inserted. */
  datatype Grouped = Grouped(hosts: seq<string>, groups: map<string, seq<Record>>)

  predicate Distinct<T(==)>(s: seq<T>)
  {
    forall i, j :: 0 <= i < j < |s| ==> s[i] != s[j]
  }

  /** `hosts` is the key order of `groups`: each key exactly once. */
  predicate WellFormed(g: Grouped)
  {
    && Distinct(g.hosts)
    && (forall h :: h in g.hosts ==> h in g.groups)
    && (forall h :: h in g.groups ==> h in g.hosts)
  }

  /** Some record of `rs` has hostname `h`. */
  predicate Occurs(rs: seq<Record>, h: string)
  {
    exists i :: 0 <= i < |rs| && rs[i].hostname == h
  }

  /** The distinct hostnames of `rs`, each where it first appears. */
  function Hostnames(rs: seq<Record>): seq<string>
  {
    if rs == [] then []
    else
      var hosts := Hostnames(rs[..|rs| - 1]);
      var h := rs[|rs| - 1].hostname;
      if h in hosts then hosts else hosts + [h]
  }

  /** Hostnames lists every hostname of the input once, and nothing else. */
  lemma {:induction false} HostnamesExact(rs: seq<Record>)
    ensures Distinct(Hostnames(rs))
    ensures forall h :: h in Hostnames(rs) <==> Occurs(rs, h)
  {
    if rs != [] {
      var rs' := rs[..|rs| - 1];
      HostnamesExact(rs');
      assert forall i :: 0 <= i < |rs'| ==> rs'[i] == rs[i];
      assert forall x :: Occurs(rs, x) <==> Occurs(rs', x) || x == rs[|rs| - 1].hostname;
    }
  }

  /** The position of the first record of `rs` with hostname `h`, or `|rs|`
      when there is none. */
  function FirstIndex(rs: seq<Record>, h: string): (i: nat)
    ensures i <= |rs|
    ensures i < |rs| ==> rs[i].hostname == h
    ensures forall k :: 0 <= k < i ==> rs[k].hostname != h
  {
    if rs == [] then 0
    else if rs[0].hostname == h then 0
    else 1 + FirstIndex(rs[1..], h)
  }

  /** Holds of the records whose hostname is `h`. */
  function HostIs(h: string): Record -> bool
  {
    (r: Record) => r.hostname == h
  }

  /** The records of host `h`, in input order. */
  function RecordsOf(rs: seq<Record>, h: string): seq<Record>
  {
    Filter(rs, HostIs(h))
  }

  /** What the grouping loop builds from `rs`. */
  function Group(rs: seq<Record>): (g: Grouped)
    ensures WellFormed(g)
  {
    var hosts := Hostnames(rs);
    HostnamesExact(rs);
    Grouped(hosts, map h | h in hosts :: RecordsOf(rs, h))
  }

  /** The records of all groups, group after group in key order. */
  function Concat(hosts: seq<string>, groups: map<string, seq<Record>>): seq<Record>
    requires forall h :: h in hosts ==> h in groups
  {
    if hosts == [] then []
    else Concat(hosts[..|hosts| - 1], groups) + groups[hosts[|hosts| - 1]]
  }

  /** Groups `records` by hostname, appending each record to its host's list
      or opening a one-element list for a host not seen before. */
  method GroupByHostname(records: seq<Record>) returns (grouped: Grouped)
    ensures grouped == Group(records)
  {
    var hosts: seq<string> := [];
    var groups: map<string, seq<Record>> := map[];
    for i := 0 to |records|
      invariant Grouped(hosts, groups) == Group(records[..i])
    {
      var intf := records[i];
      assert records[..i + 1] == records[..i] + [intf];
      GroupSnoc(records[..i], intf);
      if intf.hostname in groups {
        groups := groups[intf.hostname := groups[intf.hostname] + [intf]];
      } else {
        groups := groups[intf.hostname := [intf]];
        hosts := hosts + [intf.hostname];
      }
    }
    assert records[..|records|] == records;
    grouped := Grouped(hosts, groups);
  }

  /** One step of the grouping loop: the grouping of `rs + [r]` is that of
      `rs` with `r` appended to its host's group, or with a new one-element
      group placed last when the host is new. */
  lemma GroupSnoc(rs: seq<Record>, r: Record)
    ensures var g, h := Group(rs), r.hostname;
      Group(rs + [r]) ==
        if h in g.groups then Grouped(g.hosts, g.groups[h := g.groups[h] + [r]])
        else Grouped(g.hosts + [h], g.groups[h := [r]])
  {
    var g, g', h := Group(rs), Group(rs + [r]), r.hostname;
    var expected :=
      if h in g.groups then Grouped(g.hosts, g.groups[h := g.groups[h] + [r]])
      else Grouped(g.hosts + [h], g.groups[h := [r]]);
    HostnamesSnoc(rs, r);
    assert g'.hosts == expected.hosts;
    if h !in g.groups {
      RecordsOfOccurs(rs, h);
      HostnamesExact(rs);
    }
    forall x | x in g'.groups
      ensures x in expected.groups && g'.groups[x] == expected.groups[x]
    {
      RecordsOfSnoc(rs, r, x);
    }
    assert g'.groups == expected.groups;
  }

  lemma HostnamesSnoc(rs: seq<Record>, r: Record)
    ensures Hostnames(rs + [r]) == if r.hostname in Hostnames(rs) then Hostnames(rs) else Hostnames(rs) + [r.hostname]
  {
    assert (rs + [r])[..|rs|] == rs;
  }

  lemma RecordsOfSnoc(rs: seq<Record>, r: Record, h: string)
    ensures RecordsOf(rs + [r], h) == if r.hostname == h then RecordsOf(rs, h) + [r] else RecordsOf(rs, h)
  {
    FilterSnoc(rs, r, HostIs(h));
  }

  /** A host has records exactly when its hostname occurs in the input. */
  lemma RecordsOfOccurs(rs: seq<Record>, h: string)
    ensures RecordsOf(rs, h) != [] <==> Occurs(rs, h)
  {
    FilterEmpty(rs, HostIs(h));
  }

  /** Every group is non-empty, since a group is opened with one record, and
      its first record is the first record of the input with that hostname. */
  lemma GroupStartsWithFirstSeen(rs: seq<Record>, h: string)
    requires h in Group(rs).groups
    ensures Group(rs).groups[h] != []
    ensures FirstIndex(rs, h) < |rs| && Group(rs).groups[h][0] == rs[FirstIndex(rs, h)]
  {
    var p := HostIs(h);
    HostnamesExact(rs);
    RecordsOfOccurs(rs, h);
    FilterKeepsOrder(rs, p);
    var ix := Positions(rs, p);
    var i := FirstIndex(rs, h);
    assert p(rs[i]);
    var k :| 0 <= k < |ix| && ix[k] == i;
    assert ix[0] <= i;
  }

  /** Within a group, records keep their input order: the group's `k`-th
      record is the input record at the `k`-th position with that hostname,
      these positions increase, and every such position is used. */
  lemma GroupKeepsInputOrder(rs: seq<Record>, h: string)
    requires h in Group(rs).groups
    ensures var ix := Positions(rs, HostIs(h)); var g := Group(rs).groups[h];
      && |ix| == |g|
      && (forall k :: 0 <= k < |ix| ==> ix[k] < |rs| && rs[ix[k]].hostname == h && rs[ix[k]] == g[k])
      && (forall k, l :: 0 <= k < l < |ix| ==> ix[k] < ix[l])
      && (forall i :: 0 <= i < |rs| && rs[i].hostname == h ==> i in ix)
  {
    FilterKeepsOrder(rs, HostIs(h));
  }

  /** Hostnames come out in first-seen order. */
  lemma {:induction false} HostsInFirstSeenOrder(rs: seq<Record>)
    ensures forall a, b :: 0 <= a < b < |Hostnames(rs)| ==>
      FirstIndex(rs, Hostnames(rs)[a]) < FirstIndex(rs, Hostnames(rs)[b])
  {
    if rs != [] {
      var n := |rs| - 1;
      var rs' := rs[..n];
      HostsInFirstSeenOrder(rs');
      HostnamesExact(rs');
      var hosts, hosts' := Hostnames(rs), Hostnames(rs');
      assert forall i :: 0 <= i < n ==> rs'[i] == rs[i];
      forall h | h in hosts'
        ensures FirstIndex(rs, h) == FirstIndex(rs', h)
      {
        FirstIndexUnique(rs, h, FirstIndex(rs', h));
      }
      if rs[n].hostname !in hosts' {
        forall a | 0 <= a < |hosts'|
          ensures FirstIndex(rs, hosts[a]) < FirstIndex(rs, hosts[|hosts'|])
        {
          assert hosts[a] == hosts'[a];
          FirstIndexUnique(rs, rs[n].hostname, n);
        }
      }
    }
  }

  /** The conditions of FirstIndex determine it. */
  lemma FirstIndexUnique(rs: seq<Record>, h: string, i: nat)
    requires i <= |rs| && (i < |rs| ==> rs[i].hostname == h)
    requires forall k :: 0 <= k < i ==> rs[k].hostname != h
    ensures FirstIndex(rs, h) == i
  {
  }

  /** Grouping loses and duplicates nothing: the groups, concatenated in key
      order, are a permutation of the input, so the group sizes add up to
      the number of records. */
  lemma {:induction false} GroupingLosesNothing(rs: seq<Record>)
    ensures multiset(Concat(Group(rs).hosts, Group(rs).groups)) == multiset(rs)
    ensures |Concat(Group(rs).hosts, Group(rs).groups)| == |rs|
  {
    if rs != [] {
      var n := |rs| - 1;
      var rs' := rs[..n];
      var r := rs[n];
      assert rs == rs' + [r];
      GroupingLosesNothing(rs');
      GroupSnoc(rs', r);
      var g := Group(rs');
      var h := r.hostname;
      if h in g.groups {
        ConcatUpdate(g.hosts, g.groups, h, r);
      } else {
        var groups := g.groups[h := [r]];
        assert (g.hosts + [h])[..|g.hosts|] == g.hosts;
        assert Concat(g.hosts + [h], groups) == Concat(g.hosts, groups) + [r];
        ConcatFrame(g.hosts, groups, g.groups);
      }
    }
    assert |multiset(rs)| == |rs|;
  }

  /** Concat reads only the groups of the listed hosts. */
  lemma {:induction false} ConcatFrame(hosts: seq<string>, m: map<string, seq<Record>>, m': map<string, seq<Record>>)
    requires forall h :: h in hosts ==> h in m && h in m' && m[h] == m'[h]
    ensures Concat(hosts, m) == Concat(hosts, m')
  {
    if hosts != [] {
      ConcatFrame(hosts[..|hosts| - 1], m, m');
    }
  }

  /** Appending one record to one listed group adds exactly that record to
      the concatenation. */
  lemma {:induction false} ConcatUpdate(hosts: seq<string>, m: map<string, seq<Record>>, h: string, r: Record)
    requires Distinct(hosts) && h in hosts
    requires forall x :: x in hosts ==> x in m
    ensures multiset(Concat(hosts, m[h := m[h] + [r]])) == multiset(Concat(hosts, m)) + multiset{r}
  {
    var n := |hosts| - 1;
    var init := hosts[..n];
    var m' := m[h := m[h] + [r]];
    if hosts[n] == h {
      assert h !in init;
      ConcatFrame(init, m, m');
    } else {
      assert h in init;
      ConcatUpdate(init, m, h, r);
    }
  }

  /** Each record lands in the group of its own hostname and in no other. */
  lemma RecordInItsOwnGroup(rs: seq<Record>, i: nat)
    requires i < |rs|
    ensures rs[i].hostname in Group(rs).groups
    ensures rs[i] in Group(rs).groups[rs[i].hostname]
    ensures forall h :: h in Group(rs).groups && rs[i] in Group(rs).groups[h] ==> h == rs[i].hostname
  {
    var h := rs[i].hostname;
    HostnamesExact(rs);
    assert Occurs(rs, h);
    assert rs[i] in multiset(rs);
    FilterMultiset(rs, HostIs(h), rs[i]);
    forall x | x in Group(rs).groups && rs[i] in Group(rs).groups[x]
      ensures x == h
    {
      FilterMultiset(rs, HostIs(x), rs[i]);
    }
  }
}
