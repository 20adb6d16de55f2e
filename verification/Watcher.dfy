/** The watch stream: lines from chunks, and events folded into tables
    (api/watcher.c and api/namespace.c). */
module Watcher {
  import opened Common
  import opened HashTable
  import E = Endpoints

  type Str = seq<nat>

  const NEWLINE: nat := 10

  // ---------------------------------------------------------------- lines

  /** The place of the first newline, or the end. */
  function Upto(s: Str): (n: nat)
    ensures n <= |s| && (forall i :: 0 <= i < n ==> s[i] != NEWLINE) && (n < |s| ==> s[n] == NEWLINE)
  {
    if s == [] || s[0] == NEWLINE then 0 else 1 + Upto(s[1..])
  }

  /** The lines of s that are complete. */
  function Lines(s: Str): seq<Str>
    decreases |s|
  {
    if Upto(s) == |s| then [] else [s[..Upto(s)]] + Lines(s[Upto(s) + 1..])
  }

  /** What is left behind them. */
  function Rest(s: Str): (r: Str)
    ensures |r| <= |s| && Upto(r) == |r|
    decreases |s|
  {
    if Upto(s) == |s| then s else Rest(s[Upto(s) + 1..])
  }

  lemma {:induction false} UptoIs(s: Str, n: nat)
    requires n < |s| && s[n] == NEWLINE && forall i :: 0 <= i < n ==> s[i] != NEWLINE
    ensures Upto(s) == n
    decreases n
  {
    if n > 0 {
      UptoIs(s[1..], n - 1);
    }
  }

  lemma OneLine(s: Str, n: nat)
    requires n < |s| && s[n] == NEWLINE && forall i :: 0 <= i < n ==> s[i] != NEWLINE
    ensures Lines(s) == [s[..n]] + Lines(s[n + 1..]) && Rest(s) == Rest(s[n + 1..])
  {
    UptoIs(s, n);
  }

  lemma FirstPart(a: Str, b: Str)
    requires Upto(a) < |a|
    ensures Lines(a + b) == [a[..Upto(a)]] + Lines(a[Upto(a) + 1..] + b) && Rest(a + b) == Rest(a[Upto(a) + 1..] + b)
  {
    var n, s := Upto(a), a + b;
    OneLine(s, n);
    assert s[..n] == a[..n] && s[n + 1..] == a[n + 1..] + b;
  }

  /** Reading on from what was left gives the lines of the whole. */
  lemma {:induction false} LinesPlus(a: Str, b: Str)
    ensures Lines(a + b) == Lines(a) + Lines(Rest(a) + b) && Rest(a + b) == Rest(Rest(a) + b)
    decreases |a|
  {
    if Upto(a) == |a| {
      assert [] + Lines(a + b) == Lines(a + b);
    } else {
      var l, a' := a[..Upto(a)], a[Upto(a) + 1..];
      FirstPart(a, b);
      LinesPlus(a', b);
      assert [l] + (Lines(a') + Lines(Rest(a') + b)) == [l] + Lines(a') + Lines(Rest(a') + b);
    }
  }

  // ---------------------------------------------------------------- events

  /** The kinds of object with a table in each namespace. */
  datatype Kind = Ingress | Service | Secret | Endpoints

  /** Where an object is kept. */
  datatype Key = Key(kind: Kind, namespace: Str, name: Str)

  /** A line that parses: a change of an object in a table, whose new version may not
      parse, or of a configmap, or of something else. */
  datatype Event<T> =
    | Change(key: Key, deleted: bool, obj: Option<T>)
    | ConfigMap(namespace: Str, name: Str, deleted: bool, obj: Option<T>)
    | Unknown

  /** The parser, endpoints_equal, and the configmap that is watched, if any. */
  datatype Setup<!T> = Setup(parse: Str -> Option<Event<T>>, equal: (T, T) -> bool, config: Option<(Str, Str)>)

  /** The object a key stands for after some events: the last version that parsed, unless
      a deletion followed; endpoints that compare equal are not replaced. */
  function Current<T>(su: Setup<T>, evs: seq<Event<T>>, k: Key): Option<T>
    decreases |evs|, 1
  {
    if evs == [] then None
    else
      var before, e := evs[..|evs| - 1], evs[|evs| - 1];
      if !e.Change? || e.key != k then Current(su, before, k) else Next(su, before, k, e.deleted, e.obj)
  }

  /** The object under k after one more change to it. */
  function Next<T>(su: Setup<T>, evs: seq<Event<T>>, k: Key, deleted: bool, obj: Option<T>): Option<T>
    decreases |evs|, 2
  {
    var c := Current(su, evs, k);
    if deleted then None
    else if obj.None? || (k.kind.Endpoints? && c.Some? && su.equal(obj.value, c.value)) then c
    else obj
  }

  /** The last version put, equal or not. */
  function LastPut<T>(evs: seq<Event<T>>, k: Key): Option<T> {
    if evs == [] then None
    else
      var c, e := LastPut(evs[..|evs| - 1], k), evs[|evs| - 1];
      if !e.Change? || e.key != k then c else if e.deleted then None else if e.obj.None? then c else e.obj
  }

  function Map<T, U>(o: Option<T>, f: T -> U): Option<U> { if o.Some? then Some(f(o.value)) else None }

  /** Whatever cannot tell objects apart that compare equal cannot tell that updates were
      skipped. */
  lemma {:induction false} SkippedUpdates<T(!new), U>(su: Setup<T>, evs: seq<Event<T>>, k: Key, f: T -> U)
    requires forall a, b :: su.equal(a, b) ==> f(a) == f(b)
    ensures Map(Current(su, evs, k), f) == Map(LastPut(evs, k), f)
    decreases |evs|
  {
    if evs != [] {
      SkippedUpdates(su, evs[..|evs| - 1], k, f);
    }
  }

  /** An object in a table; only endpoints are looked into. */
  datatype Object = Eps(value: E.Value) | Other(id: nat)

  /** endpoints_equal decides whether the values of endpoints are the same: see
      Endpoints.Equal. */
  ghost predicate ComparesEndpoints(su: Setup<Object>) {
    forall a: Object, b: Object :: a.Eps? && b.Eps? ==> (su.equal(a, b) <==> a == b)
  }

  /** The targets that build_add_endpoints takes from endpoints. */
  function TargetsOf(o: Object, portName: Str): seq<(Option<Str>, int)> {
    if o.Eps? then E.Targets(o.value.contents, portName) else []
  }

  /** The events put only endpoints under keys of endpoints. */
  predicate WellKinded(evs: seq<Event<Object>>) {
    forall i :: 0 <= i < |evs| ==>
      evs[i].Change? && evs[i].key.kind.Endpoints? && evs[i].obj.Some? ==> evs[i].obj.value.Eps?
  }

  lemma {:induction false} CurrentKind(su: Setup<Object>, evs: seq<Event<Object>>, k: Key)
    requires WellKinded(evs) && k.kind.Endpoints? && ComparesEndpoints(su)
    ensures Current(su, evs, k).Some? ==> Current(su, evs, k).value.Eps?
    ensures Current(su, evs, k) == LastPut(evs, k)
    decreases |evs|
  {
    if evs != [] {
      CurrentKind(su, evs[..|evs| - 1], k);
      assert WellKinded(evs[..|evs| - 1]);
    }
  }

  /** So for every port name the targets are those of the last version put, although
      updates that compare equal were skipped. */
  lemma SkippedTargets(su: Setup<Object>, evs: seq<Event<Object>>, k: Key, portName: Str)
    requires WellKinded(evs) && k.kind.Endpoints? && ComparesEndpoints(su)
    ensures Map(Current(su, evs, k), o => TargetsOf(o, portName)) == Map(LastPut(evs, k), o => TargetsOf(o, portName))
  {
    CurrentKind(su, evs, k);
  }

  function Single<T>(o: Option<T>): seq<T> { if o.Some? then [o.value] else [] }

  /** Whether an event is for the configmap that is watched. */
  predicate Watched<T>(su: Setup<T>, e: Event<T>) {
    e.ConfigMap? && su.config.Some? && (e.namespace, e.name) == su.config.value
  }

  /** The configmap after some events. */
  function ConfigNow<T>(su: Setup<T>, evs: seq<Event<T>>): Option<T> {
    if evs == [] then None
    else
      var c, e := ConfigNow(su, evs[..|evs| - 1]), evs[|evs| - 1];
      if !Watched(su, e) then c else if e.deleted then None else if e.obj.None? then c else e.obj
  }

  /** Whether an event after others marks the cluster as changed: all but endpoints that
      do not parse or compare equal, and configmaps that are not watched. */
  predicate Alters<T>(su: Setup<T>, evs: seq<Event<T>>, e: Event<T>) {
    match e
    case Change(k, deleted, obj) =>
      !k.kind.Endpoints? || deleted ||
      (obj.Some? && (Current(su, evs, k).None? || !su.equal(obj.value, Current(su, evs, k).value)))
    case ConfigMap(_, _, _, _) => Watched(su, e)
    case Unknown => false
  }

  predicate AnyAlters<T>(su: Setup<T>, evs: seq<Event<T>>) {
    evs != [] && (AnyAlters(su, evs[..|evs| - 1]) || Alters(su, evs[..|evs| - 1], evs[|evs| - 1]))
  }

  /** What one more event does to all that is tracked. */
  lemma OneMore<T>(su: Setup<T>, evs: seq<Event<T>>, e: Event<T>)
    ensures forall k :: Current(su, evs + [e], k) ==
                        (if e.Change? && e.key == k then Next(su, evs, k, e.deleted, e.obj) else Current(su, evs, k))
    ensures AnyAlters(su, evs + [e]) == (AnyAlters(su, evs) || Alters(su, evs, e))
    ensures ConfigNow(su, evs + [e]) ==
      if !Watched(su, e) then ConfigNow(su, evs)
      else if e.deleted then None else if e.obj.None? then ConfigNow(su, evs) else e.obj
  {
    assert (evs + [e])[..|evs|] == evs;
  }

  /** The object that an event brings for something that is kept. */
  ghost predicate Brings<T(!new)>(su: Setup<T>, evs: seq<Event<T>>, e: Event<T>) {
    (exists k :: Current(su, evs + [e], k) != Current(su, evs, k)) || ConfigNow(su, evs + [e]) != ConfigNow(su, evs)
  }

  /** Whatever changes an object or the configmap that is kept sets the changed flag. */
  lemma ChangesAlter<T(!new)>(su: Setup<T>, evs: seq<Event<T>>, e: Event<T>)
    requires Brings(su, evs, e)
    ensures Alters(su, evs, e)
  {
    OneMore(su, evs, e);
  }

  /** Without the flag nothing has ever been kept. */
  lemma {:induction false} QuietIsEmpty<T(!new)>(su: Setup<T>, evs: seq<Event<T>>, k: Key)
    requires !AnyAlters(su, evs)
    ensures Current(su, evs, k).None? && ConfigNow(su, evs).None?
    decreases |evs|
  {
    if evs != [] {
      var before, e := evs[..|evs| - 1], evs[|evs| - 1];
      QuietIsEmpty(su, before, k);
      assert before + [e] == evs;
      if Brings(su, before, e) { ChangesAlter(su, before, e); }
    }
  }

  /** The flag is set without a change only by a deletion of what is not there, by a version
      that does not parse, or by one that is the same. */
  lemma AltersOnly<T(!new)>(su: Setup<T>, evs: seq<Event<T>>, e: Event<T>)
    requires Alters(su, evs, e) && !Brings(su, evs, e)
    ensures e.Change? || Watched(su, e)
    ensures var c := if e.Change? then Current(su, evs, e.key) else ConfigNow(su, evs);
      if e.deleted then c.None? else e.obj.None? || e.obj == c
    ensures e.Change? && e.key.kind.Endpoints? ==> e.deleted || !su.equal(e.obj.value, e.obj.value)
  {
    OneMore(su, evs, e);
    if e.Change? { assert Current(su, evs + [e], e.key) == Current(su, evs, e.key); }
  }

  /** The events of the lines that parse. */
  function Parsed<T>(su: Setup<T>, lines: seq<Str>): seq<Event<T>> {
    if lines == [] then []
    else
      var e := su.parse(lines[|lines| - 1]);
      Parsed(su, lines[..|lines| - 1]) + if e.Some? then [e.value] else []
  }

  lemma ParsedMore<T>(su: Setup<T>, lines: seq<Str>, l: Str)
    ensures Parsed(su, lines + [l]) == Parsed(su, lines) + if su.parse(l).Some? then [su.parse(l).value] else []
  {
    assert (lines + [l])[..|lines|] == lines;
  }

  /** A line as a C string: it ends at the first NUL. */
  function Text(l: Str): Str {
    if l == [] || l[0] == 0 then [] else [l[0]] + Text(l[1..])
  }

  function Texts(ls: seq<Str>): (r: seq<Str>)
    ensures |r| == |ls|
  {
    seq(|ls|, i requires 0 <= i < |ls| => Text(ls[i]))
  }

  lemma {:induction false} WholeText(l: Str)
    requires 0 !in l
    ensures Text(l) == l
    decreases |l|
  {
    if l != [] {
      WholeText(l[1..]);
    }
  }

  class Fetcher<T> {
    const su: Setup<T>
    /** The tables of all namespaces in one. */
    const table: Table<Key, T>
    var buf: Str
    var configmap: Option<T>
    var changed: bool
    /** The events processed and the lines read. */
    ghost var evs: seq<Event<T>>
    ghost var lines: seq<Str>

    /** A table has at most one object under a name: the current one. */
    ghost predicate Tracks()
      reads this, table, table.buckets, table.nodes
    {
      table.Valid() && (forall k :: table.Stack(k) == Single(Current(su, evs, k))) &&
      configmap == ConfigNow(su, evs) && changed == AnyAlters(su, evs)
    }

    ghost predicate Valid()
      reads this, table, table.buckets, table.nodes
    {
      Tracks() && evs == Parsed(su, lines) && Upto(buf) == |buf|
    }

    constructor (su: Setup<T>, size: nat, hash: Key -> nat)
      requires 0 < size
      ensures Valid() && this.su == su && buf == [] && lines == []
      ensures fresh(table) && fresh(table.buckets) && fresh(table.nodes)
    {
      this.su := su;
      table := new Table(size, hash);
      buf, configmap, changed, evs, lines := [], None, false, [], [];
    }

    /** namespace_del_*: one value is taken off. */
    method Del(k: Key)
      requires table.Valid()
      modifies table, table.buckets, table.nodes
      ensures table.Valid() && fresh(table.nodes - old(table.nodes))
      ensures forall q :: table.Stack(q) == if q != k then old(table.Stack(q)) else Pop(old(table.Stack(k)))
    {
      table.Delete(k);
    }

    /** namespace_put_*: one value is taken off and the new one is put on. */
    method Put(k: Key, obj: T)
      requires table.Valid()
      modifies table, table.buckets, table.nodes
      ensures table.Valid() && fresh(table.nodes - old(table.nodes))
      ensures forall q :: table.Stack(q) == if q != k then old(table.Stack(q)) else [obj] + Pop(old(table.Stack(k)))
    {
      table.Delete(k);
      table.Set(k, obj);
    }

    /** The part of fe_watch_line for objects in tables, after the events 'before'. */
    method ApplyChange(k: Key, deleted: bool, obj: Option<T>, ghost before: seq<Event<T>>)
      requires table.Valid() && forall q :: table.Stack(q) == Single(Current(su, before, q))
      modifies this`changed, table, table.buckets, table.nodes
      ensures table.Valid() && fresh(table.nodes - old(table.nodes))
      ensures table.Stack(k) == Single(Next(su, before, k, deleted, obj))
      ensures forall q :: q != k ==> table.Stack(q) == old(table.Stack(q))
      ensures changed == (old(changed) || Alters(su, before, Change(k, deleted, obj)))
    {
      assert table.Stack(k) == Single(Current(su, before, k));
      if deleted {
        Del(k);
        changed := true;
      } else if !k.kind.Endpoints? {
        if obj.Some? {
          Put(k, obj.value);
        }
        changed := true;
      } else if obj.Some? {
        var stored := table.Get(k);
        if stored.None? || !su.equal(obj.value, stored.value) {
          Put(k, obj.value);
          changed := true;
        }
      }
    }

    /** The part for the configmap. */
    method ApplyConfig(ns: Str, name: Str, deleted: bool, obj: Option<T>)
      modifies this`changed, this`configmap
      ensures var watched := su.config == Some((ns, name));
        configmap ==
          (if !watched || (!deleted && obj.None?) then old(configmap) else if deleted then None else obj) &&
        changed == (old(changed) || watched)
    {
      if su.config.Some? && (ns, name) == su.config.value {
        if deleted {
          configmap := None;
        } else if obj.Some? {
          configmap := obj;
        }
        changed := true;
      }
    }

    /** fe_watch_line after parsing. */
    method Apply(e: Event<T>)
      requires Tracks()
      modifies this`configmap, this`changed, this`evs, table, table.buckets, table.nodes
      ensures Tracks() && evs == old(evs) + [e] && fresh(table.nodes - old(table.nodes))
    {
      ghost var before := evs;
      OneMore(su, before, e);
      evs := evs + [e];
      match e {
        case Change(k, deleted, obj) => ApplyChange(k, deleted, obj, before);
        case ConfigMap(ns, name, deleted, obj) => ApplyConfig(ns, name, deleted, obj);
        case Unknown =>
      }
    }

    /** fe_watch_line. */
    method WatchLine(line: Str)
      requires Valid()
      modifies this`configmap, this`changed, this`evs, this`lines, table, table.buckets, table.nodes
      ensures Valid() && lines == old(lines) + [Text(line)] && fresh(table.nodes - old(table.nodes))
    {
      var e := su.parse(Text(line));
      ParsedMore(su, lines, Text(line));
      lines := lines + [Text(line)];
      if e.Some? {
        Apply(e.value);
      }
    }

    /** The loop of fe_watch_read over the text in the buffer; returns what is left. */
    method TakeLines(text: Str) returns (rest: Str)
      requires Valid()
      modifies this`configmap, this`changed, this`evs, this`lines, table, table.buckets, table.nodes
      ensures Valid() && lines == old(lines) + Texts(Lines(text)) && rest == Rest(text)
      ensures fresh(table.nodes - old(table.nodes))
    {
      rest := text;
      ghost var goal := lines + Texts(Lines(text));
      while true
        invariant Valid() && lines + Texts(Lines(rest)) == goal && Rest(rest) == Rest(text)
        invariant fresh(table.nodes - old(table.nodes))
        decreases |rest|
      {
        var s := Upto(rest);
        if s == |rest| {
          assert lines + [] == lines;
          return;
        }
        TextsFirst(lines, rest[..s], Lines(rest[s + 1..]));
        WatchLine(rest[..s]);
        rest := rest[s + 1..];
      }
    }

    /** fe_watch_read: the complete lines of the buffer and the data are processed, and
        the rest is kept. */
    method WatchRead(data: Str)
      requires Valid()
      modifies this, table, table.buckets, table.nodes
      ensures Valid() && lines == old(lines) + Texts(Lines(old(buf) + data)) && buf == Rest(old(buf) + data)
      ensures fresh(table.nodes - old(table.nodes))
    {
      if |data| == 0 {
        assert buf + data == buf && lines + [] == lines;
        return;
      }
      var rest := TakeLines(buf + data);
      buf := rest;
    }
  }

  lemma TextsFirst(done: seq<Str>, l: Str, ls: seq<Str>)
    ensures done + Texts([l] + ls) == done + [Text(l)] + Texts(ls)
  {
  }

  lemma TextsPlus(a: seq<Str>, b: seq<Str>)
    ensures Texts(a + b) == Texts(a) + Texts(b)
  {
  }

  /** Any chunking of the stream: the lines processed are the complete lines of the whole,
      and the tables hold what the events in them make current. */
  method WatchAll<T>(su: Setup<T>, chunks: seq<Str>, size: nat, hash: Key -> nat) returns (fe: Fetcher<T>)
    requires 0 < size
    ensures fe.su == su && fe.Tracks()
    ensures fe.evs == Parsed(su, Texts(Lines(Concat(chunks)))) && fe.buf == Rest(Concat(chunks))
  {
    fe := new Fetcher<T>(su, size, hash);
    for i := 0 to |chunks|
      invariant fresh(fe) && fresh(fe.table) && fresh(fe.table.buckets) && fresh(fe.table.nodes)
      invariant fe.Valid() && fe.su == su
      invariant fe.lines == Texts(Lines(Concat(chunks[..i]))) && fe.buf == Rest(Concat(chunks[..i]))
    {
      ghost var a := Concat(chunks[..i]);
      assert chunks[..i + 1][..i] == chunks[..i];
      LinesPlus(a, chunks[i]);
      TextsPlus(Lines(a), Lines(Rest(a) + chunks[i]));
      fe.WatchRead(chunks[i]);
    }
    assert chunks[..|chunks|] == chunks;
  }
}
