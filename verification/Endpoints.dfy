/** endpoints_equal (api/endpoints.c) and the targets that build_add_endpoints takes
    from endpoints (remap/remap_build.c). */
module Endpoints {
  import opened Common
  import opened HashTable

  type Str = seq<nat>

  /** An address and a port of a subset; the strings of an address may be absent. */
  datatype Address = Address(ip: Option<Str>, nodeName: Option<Str>)
  datatype Port = Port(name: Str, port: int, protocol: Str)

  datatype Subset = Subset(addrs: seq<Address>, ports: Table<Str, Port>)
  datatype Endpoints = Endpoints(name: Str, namespace: Str, subsets: seq<Subset>)

  /** What is in a subset: its addresses, and its ports in the order of iteration. */
  type Content = (seq<Address>, seq<(Str, Port)>)

  ghost function ContentOf(s: Subset): Content
    reads s.ports
  {
    (s.addrs, s.ports.All())
  }

  ghost function Contents(ss: seq<Subset>): (r: seq<Content>)
    reads set s | s in ss :: s.ports
    ensures |r| == |ss| && forall i :: 0 <= i < |ss| ==> r[i] == ContentOf(ss[i])
  {
    if ss == [] then [] else Contents(ss[..|ss| - 1]) + [ContentOf(ss[|ss| - 1])]
  }

  /** The addresses of a subset with the port of a name, if it has one. */
  function Own(c: Content, portName: Str): seq<(Option<Str>, int)> {
    var (addrs, all) := c;
    var i := Find(all, portName);
    if i < |all| then seq(|addrs|, j requires 0 <= j < |addrs| => (addrs[j].ip, all[i].1.port)) else []
  }

  /** The addresses and ports that a service gets for a port name. */
  function Targets(cs: seq<Content>, portName: Str): seq<(Option<Str>, int)> {
    if cs == [] then [] else Targets(cs[..|cs| - 1], portName) + Own(cs[|cs| - 1], portName)
  }

  /** A subset gives one of its addresses, with its first port of the name. */
  ghost predicate Gives(c: Content, portName: Str, ip: Option<Str>, port: int) {
    (exists j :: 0 <= j < |c.0| && c.0[j].ip == ip) &&
    exists i :: 0 <= i < |c.1| && c.1[i].0 == portName && c.1[i].1.port == port &&
                forall k :: 0 <= k < i ==> c.1[k].0 != portName
  }

  lemma OwnIff(c: Content, portName: Str, ip: Option<Str>, port: int)
    ensures (ip, port) in Own(c, portName) <==> Gives(c, portName, ip, port)
  {
    var i, own := Find(c.1, portName), Own(c, portName);
    if (ip, port) in own {
      var j :| 0 <= j < |own| && own[j] == (ip, port);
      assert c.0[j].ip == ip;
    }
    if Gives(c, portName, ip, port) {
      var j :| 0 <= j < |c.0| && c.0[j].ip == ip;
      assert own[j] == (ip, port);
    }
  }

  /** The targets are the addresses of every subset that has the port, and no others. */
  lemma {:induction false} TargetsIff(cs: seq<Content>, portName: Str, ip: Option<Str>, port: int)
    ensures (ip, port) in Targets(cs, portName) <==> exists n :: 0 <= n < |cs| && Gives(cs[n], portName, ip, port)
  {
    if cs != [] {
      var low, last := cs[..|cs| - 1], cs[|cs| - 1];
      TargetsIff(low, portName, ip, port);
      OwnIff(last, portName, ip, port);
      if exists n :: 0 <= n < |low| && Gives(low[n], portName, ip, port) {
        var n :| 0 <= n < |low| && Gives(low[n], portName, ip, port);
        assert Gives(cs[n], portName, ip, port);
      }
      if n :| 0 <= n < |cs| && Gives(cs[n], portName, ip, port) {
        if n < |low| { assert Gives(low[n], portName, ip, port); }
      }
    }
  }

  /** The comparison of strings that may be absent. */
  method SameText(a: Option<Str>, b: Option<Str>) returns (r: bool)
    ensures r <==> a == b
  {
    if a.None? {
      r := b.None?;
    } else if b.None? {
      r := false;
    } else {
      r := a.value == b.value;
    }
  }

  method SameAddresses(a: seq<Address>, b: seq<Address>) returns (r: bool)
    ensures r <==> a == b
  {
    if |a| != |b| {
      return false;
    }
    for j := 0 to |a|
      invariant forall k :: 0 <= k < j ==> a[k] == b[k]
    {
      var ip := SameText(a[j].ip, b[j].ip);
      var node := SameText(a[j].nodeName, b[j].nodeName);
      if !ip || !node {
        assert a[j] != b[j];
        return false;
      }
    }
    r := true;
  }

  /** Both tables are iterated side by side. */
  method SamePorts(a: Table<Str, Port>, b: Table<Str, Port>) returns (r: bool)
    requires a.Valid() && b.Valid()
    ensures r <==> a.All() == b.All()
  {
    var ia, pa, ib, pb := 0, null, 0, null;
    ghost var n := 0;
    while true
      invariant a.Stands(ia, pa, n) && b.Stands(ib, pb, n) && n <= |a.All()| && n <= |b.All()|
      invariant forall k :: 0 <= k < n ==> a.All()[k] == b.All()[k]
      decreases |a.All()| - n
    {
      var ra, rb;
      ra, ia, pa := a.Iterate(ia, pa, n);
      rb, ib, pb := b.Iterate(ib, pb, n);
      if ra.Some? != rb.Some? {
        return false;
      }
      if ra.None? {
        return true;
      }
      if ra.value.0 != rb.value.0 || ra.value.1.name != rb.value.1.name || ra.value.1.protocol != rb.value.1.protocol ||
         ra.value.1.port != rb.value.1.port
      {
        assert a.All()[n] != b.All()[n];
        return false;
      }
      n := n + 1;
    }
  }

  ghost predicate AllValid(ss: seq<Subset>)
    reads set s | s in ss :: s.ports
    reads set s | s in ss :: s.ports.buckets
    reads set s, x | s in ss && x in s.ports.nodes :: x
  {
    forall i :: 0 <= i < |ss| ==> ss[i].ports.Valid()
  }

  /** Endpoints as a value: what endpoints_equal compares. */
  datatype Value = Value(name: Str, namespace: Str, contents: seq<Content>)

  ghost function ValueOf(e: Endpoints): Value
    reads set s | s in e.subsets :: s.ports
  {
    Value(e.name, e.namespace, Contents(e.subsets))
  }

  /** endpoints_equal: what compares equal gives the same targets for every port name, so
      an update to it can be skipped. */
  method Equal(a: Endpoints, b: Endpoints) returns (r: bool)
    requires AllValid(a.subsets) && AllValid(b.subsets)
    ensures r <==> ValueOf(a) == ValueOf(b)
    ensures r ==> forall portName :: Targets(Contents(a.subsets), portName) == Targets(Contents(b.subsets), portName)
  {
    if a.name != b.name || a.namespace != b.namespace || |a.subsets| != |b.subsets| {
      return false;
    }
    for i := 0 to |a.subsets|
      invariant forall k :: 0 <= k < i ==> ContentOf(a.subsets[k]) == ContentOf(b.subsets[k])
    {
      var s, t := a.subsets[i], b.subsets[i];
      var addrs := SameAddresses(s.addrs, t.addrs);
      if !addrs {
        assert Contents(a.subsets)[i] != Contents(b.subsets)[i];
        return false;
      }
      var ports := SamePorts(s.ports, t.ports);
      if !ports {
        assert Contents(a.subsets)[i] != Contents(b.subsets)[i];
        return false;
      }
    }
    r := true;
  }

  /** One round of the outer loop of build_add_endpoints. */
  method AddSubset(s: Subset, portName: Str) returns (ts: seq<(Option<Str>, int)>)
    requires s.ports.Valid()
    ensures ts == Own(ContentOf(s), portName)
  {
    ts := [];
    var p := s.ports.Get(portName);
    s.ports.GetIsFirst(portName);
    if p.Some? {
      ts := AddAll(s.addrs, p.value.port);
    }
  }

  /** The loops of build_add_endpoints. */
  method AddEndpoints(ss: seq<Subset>, portName: Str) returns (ts: seq<(Option<Str>, int)>)
    requires AllValid(ss)
    ensures ts == Targets(Contents(ss), portName)
  {
    ts := [];
    ghost var cs := Contents(ss);
    for i := 0 to |ss|
      invariant ts == Targets(cs[..i], portName)
    {
      var more := AddSubset(ss[i], portName);
      assert cs[..i + 1][..i] == cs[..i];
      ts := ts + more;
    }
    assert cs[..|ss|] == cs;
  }

  method AddAll(addrs: seq<Address>, port: int) returns (ts: seq<(Option<Str>, int)>)
    ensures ts == seq(|addrs|, j requires 0 <= j < |addrs| => (addrs[j].ip, port))
  {
    ts := [];
    for j := 0 to |addrs|
      invariant |ts| == j && forall k :: 0 <= k < j ==> ts[k] == (addrs[k].ip, port)
    {
      ts := ts + [(addrs[j].ip, port)];
    }
  }
}
