/** The generated reload checks and the configuration cell they guard. */
module ConfigReload {
  import opened Basics
  import opened Digraph

  datatype Field = Field(goName: string, goType: string, isMessage: bool, repeated: bool, reload: bool)

  datatype MessageInfo = MessageInfo(name: string, fields: seq<Field>, root: bool)

  type Schema = map<string, MessageInfo>

  type Path = seq<string>

  // ----- Schemas -----

  /** The map from message name to message; of several with one name the last counts. */
  method MessageMap(messages: seq<MessageInfo>) returns (schema: Schema)
    ensures schema.Keys == set m | m in messages :: m.name
    ensures forall n :: n in schema ==> LastNamed(messages, n, schema[n])
  {
    schema := map[];
    var i := 0;
    while i < |messages|
      invariant 0 <= i <= |messages|
      invariant schema.Keys == set m | m in messages[..i] :: m.name
      invariant forall n :: n in schema ==> LastNamed(messages[..i], n, schema[n])
    {
      var before := messages[..i];
      assert messages[..i + 1] == before + [messages[i]];
      forall n | n in schema && n != messages[i].name ensures LastNamed(before + [messages[i]], n, schema[n]) {
        LastNamedAppend(before, messages[i], n, schema[n]);
      }
      schema := schema[messages[i].name := messages[i]];
      assert LastNamed(before + [messages[i]], messages[i].name, messages[i]);
      i := i + 1;
    }
    assert messages[..i] == messages;
  }

  ghost predicate LastNamed(messages: seq<MessageInfo>, n: string, m: MessageInfo) {
    m.name == n && exists k :: 0 <= k < |messages| && messages[k] == m && forall j :: k < j < |messages| ==> messages[j].name != n
  }

  lemma LastNamedAppend(messages: seq<MessageInfo>, more: MessageInfo, n: string, m: MessageInfo)
    requires LastNamed(messages, n, m) && more.name != n
    ensures LastNamed(messages + [more], n, m)
  {
    var k :| 0 <= k < |messages| && messages[k] == m && forall j :: k < j < |messages| ==> messages[j].name != n;
    assert (messages + [more])[k] == m;
  }

  /** A field whose checks are those of the message it holds. */
  predicate Nested(f: Field) {
    f.isMessage && !f.repeated
  }

  /** Message `u` directly contains message `v`. */
  ghost predicate Contains(schema: Schema, u: string, v: string) {
    u in schema && v in schema && exists f :: f in schema[u].fields && Nested(f) && f.goType == v
  }

  /** Messages each directly containing the next. */
  ghost predicate IsPath(schema: Schema, p: seq<string>) {
    p != [] && forall i {:trigger StepAt(schema, p, i)} :: 0 <= i < |p| - 1 ==> StepAt(schema, p, i)
  }

  ghost predicate StepAt(schema: Schema, p: seq<string>, i: nat)
    requires i + 1 < |p|
  {
    Contains(schema, p[i], p[i + 1])
  }

  lemma PathsJoin(schema: Schema, p: seq<string>, q: seq<string>)
    requires IsPath(schema, p) && IsPath(schema, q) && p[|p| - 1] == q[0]
    ensures IsPath(schema, p + q[1..])
  {
    var r := p + q[1..];
    forall i | 0 <= i < |r| - 1 ensures StepAt(schema, r, i) {
      if i < |p| - 1 {
        assert StepAt(schema, p, i);
      } else {
        assert StepAt(schema, q, i - (|p| - 1));
      }
    }
  }

  /** `u` contains `v`, at any depth, or is `v`. */
  ghost predicate Reaches(schema: Schema, u: string, v: string) {
    exists p :: IsPath(schema, p) && p[0] == u && p[|p| - 1] == v
  }

  lemma ReachesItself(schema: Schema, u: string)
    ensures Reaches(schema, u, u)
  {
    assert IsPath(schema, [u]);
  }

  lemma ReachesBeyond(schema: Schema, u: string, v: string, w: string)
    requires Reaches(schema, u, v) && Contains(schema, v, w)
    ensures Reaches(schema, u, w)
  {
    var p :| IsPath(schema, p) && p[0] == u && p[|p| - 1] == v;
    assert StepAt(schema, [v, w], 0);
    PathsJoin(schema, p, [v, w]);
    var r := p + [v, w][1..];
    assert IsPath(schema, r) && r[0] == u && r[|r| - 1] == w;
  }

  lemma ReachesFrom(schema: Schema, u: string, v: string, w: string)
    requires Contains(schema, u, v) && Reaches(schema, v, w)
    ensures Reaches(schema, u, w)
  {
    var p :| IsPath(schema, p) && p[0] == v && p[|p| - 1] == w;
    assert StepAt(schema, [u, v], 0);
    PathsJoin(schema, [u, v], p);
    var r := [u, v] + p[1..];
    assert IsPath(schema, r) && r[0] == u && r[|r| - 1] == w;
  }

  /** Some message that the root contains, or the root, contains itself. */
  ghost predicate RecursiveBelow(schema: Schema, root: string) {
    exists u :: Reaches(schema, root, u) && ContainsItself(schema, u)
  }

  ghost predicate ContainsItself(schema: Schema, u: string) {
    exists p :: IsPath(schema, p) && |p| >= 2 && p[0] == p[|p| - 1] == u
  }

  /** A measure on some of the messages, among them all that those contain, that falls from
      each message to those it contains. */
  ghost predicate Measures(rank: map<string, nat>, schema: Schema) {
    forall u, v :: u in rank && Contains(schema, u, v) ==> v in rank && rank[v] < rank[u]
  }

  // The containment graph as a list of edges.

  function FieldEdges(schema: Schema, u: string, fields: seq<Field>): seq<Edge> {
    if fields == [] then [] else
      var f := fields[|fields| - 1];
      FieldEdges(schema, u, fields[..|fields| - 1]) + if Nested(f) && f.goType in schema then [Edge(u, f.goType)] else []
  }

  ghost predicate Leads(fields: seq<Field>, v: string) {
    exists f :: f in fields && Nested(f) && f.goType == v
  }

  lemma {:induction false} FieldEdgesMeaning(schema: Schema, u: string, fields: seq<Field>, e: Edge)
    ensures e in FieldEdges(schema, u, fields) <==> e.from == u && e.to in schema && Leads(fields, e.to)
  {
    if fields != [] {
      var before, f := fields[..|fields| - 1], fields[|fields| - 1];
      FieldEdgesMeaning(schema, u, before, e);
      assert fields == before + [f];
    }
  }

  lemma {:induction false} GraphOver(schema: Schema, names: set<string>) returns (edges: seq<Edge>)
    requires names <= schema.Keys
    ensures forall u, v :: Linked(edges, u, v) <==> u in names && Contains(schema, u, v)
    decreases |names|
  {
    if names == {} {
      edges := [];
    } else {
      var n :| n in names;
      var rest := GraphOver(schema, names - {n});
      var more := FieldEdges(schema, n, schema[n].fields);
      edges := rest + more;
      forall u, v ensures Linked(edges, u, v) <==> u in names && Contains(schema, u, v) {
        FieldEdgesMeaning(schema, n, schema[n].fields, Edge(u, v));
        assert Linked(rest, u, v) <==> u in names - {n} && Contains(schema, u, v);
      }
    }
  }

  lemma WalkIsPath(schema: Schema, edges: seq<Edge>, p: seq<string>)
    requires IsWalk(edges, p) && forall u, v :: Linked(edges, u, v) ==> Contains(schema, u, v)
    ensures IsPath(schema, p)
  {
    forall i | 0 <= i < |p| - 1 ensures StepAt(schema, p, i) {
      assert Linked(edges, p[i], p[i + 1]);
    }
  }

  lemma RankBelow(schema: Schema, root: string) returns (rank: map<string, nat>)
    requires root in schema && !RecursiveBelow(schema, root)
    ensures root in rank && Measures(rank, schema)
  {
    var below := set v | v in schema.Keys && Reaches(schema, root, v);
    var edges := GraphOver(schema, below);
    if p :| IsCycle(edges, p) {
      WalkIsPath(schema, edges, p);
      assert Linked(edges, p[0], p[0 + 1]);
      assert ContainsItself(schema, p[0]);
      assert false;
    }
    rank := AcyclicHasRank(below, edges);
    ReachesItself(schema, root);
    forall u, v | u in rank && Contains(schema, u, v) ensures v in rank && rank[v] < rank[u] {
      ReachesBeyond(schema, root, u, v);
      assert Linked(edges, u, v);
    }
  }

  lemma {:induction false} RankFallsAlongPath(rank: map<string, nat>, schema: Schema, p: seq<string>)
    requires Measures(rank, schema) && IsPath(schema, p) && p[0] in rank
    ensures p[|p| - 1] in rank && rank[p[|p| - 1]] + |p| - 1 <= rank[p[0]]
  {
    if |p| > 1 {
      var q := p[..|p| - 1];
      forall i | 0 <= i < |q| - 1 ensures StepAt(schema, q, i) {
        assert StepAt(schema, p, i);
      }
      RankFallsAlongPath(rank, schema, q);
      assert StepAt(schema, p, |p| - 2);
    }
  }

  /** The generator's recursion from a root has a measure exactly when no message it meets
      contains itself, directly or through others. */
  lemma MeasureIffAcyclic(schema: Schema, root: string)
    requires root in schema
    ensures (exists rank :: root in rank && Measures(rank, schema)) <==> !RecursiveBelow(schema, root)
  {
    if rank :| root in rank && Measures(rank, schema) {
      forall u | Reaches(schema, root, u) ensures !ContainsItself(schema, u) {
        var q :| IsPath(schema, q) && q[0] == root && q[|q| - 1] == u;
        RankFallsAlongPath(rank, schema, q);
        forall p | IsPath(schema, p) && |p| >= 2 && p[0] == u ensures p[|p| - 1] != u {
          RankFallsAlongPath(rank, schema, p);
        }
      }
    }
    if !RecursiveBelow(schema, root) {
      var rank := RankBelow(schema, root);
    }
  }

  // ----- Leaves -----

  /** A path from a message to a leaf field that is not marked reload. A mark on a nested
      message field itself has no effect. */
  ghost predicate IsFrozenLeaf(schema: Schema, fields: seq<Field>, path: Path)
    decreases |path|
  {
    path != [] && exists f :: f in fields && f.goName == path[0] && LeafVia(schema, f, path)
  }

  ghost predicate LeafVia(schema: Schema, f: Field, path: Path)
    requires path != []
    decreases |path|, 0
  {
    if Nested(f) then f.goType in schema && IsFrozenLeaf(schema, schema[f.goType].fields, path[1..])
    else |path| == 1 && !f.reload
  }

  /** Which paths are frozen, field by field: an unmarked field that is no message, or is
      repeated, exactly itself, compared whole; a marked one of that sort none; and a single
      message, marked or not, the frozen paths of its message if the schema has it. */
  lemma FieldMeaning(schema: Schema, f: Field, path: Path)
    ensures (!f.isMessage || f.repeated) && !f.reload ==> (IsFrozenLeaf(schema, [f], path) <==> path == [f.goName])
    ensures (!f.isMessage || f.repeated) && f.reload ==> !IsFrozenLeaf(schema, [f], path)
    ensures f.isMessage && !f.repeated ==>
              (IsFrozenLeaf(schema, [f], path) <==>
               path != [] && path[0] == f.goName && f.goType in schema && IsFrozenLeaf(schema, schema[f.goType].fields, path[1..]))
  {
    assert f in [f];
    if path == [f.goName] {
      assert LeafVia(schema, f, path) <==> if f.isMessage && !f.repeated then f.goType in schema && IsFrozenLeaf(schema, schema[f.goType].fields, path[1..]) else !f.reload;
    }
    if IsFrozenLeaf(schema, [f], path) {
      assert path == [path[0]] + path[1..];
    }
  }

  lemma FieldsMeaning(schema: Schema, fields: seq<Field>, path: Path)
    ensures IsFrozenLeaf(schema, fields, path) <==> exists f :: f in fields && IsFrozenLeaf(schema, [f], path)
  {
    if IsFrozenLeaf(schema, fields, path) {
      var f :| f in fields && f.goName == path[0] && LeafVia(schema, f, path);
      assert f in [f] && IsFrozenLeaf(schema, [f], path);
    }
    forall f | f in fields && IsFrozenLeaf(schema, [f], path) ensures IsFrozenLeaf(schema, fields, path) {
      var g :| g in [f] && g.goName == path[0] && LeafVia(schema, g, path);
      assert g in fields;
    }
  }

  /** The same paths for any schema, with a nested field of an unknown message counted as an
      opaque leaf: what a complete set of checks would compare. */
  ghost predicate IsUnmarkedLeaf(schema: Schema, fields: seq<Field>, path: Path)
    decreases |path|
  {
    path != [] && exists f :: f in fields && f.goName == path[0] && UnmarkedVia(schema, f, path)
  }

  ghost predicate UnmarkedVia(schema: Schema, f: Field, path: Path)
    requires path != []
    decreases |path|, 0
  {
    if Nested(f) && f.goType in schema then IsUnmarkedLeaf(schema, schema[f.goType].fields, path[1..])
    else |path| == 1 && (Nested(f) || !f.reload)
  }

  /** Every nested field of a message has its message in the schema. */
  ghost predicate ClosedAt(schema: Schema, n: string) {
    n in schema ==> forall f :: f in schema[n].fields && Nested(f) ==> f.goType in schema
  }

  /** So has every message that the root contains, and the root. */
  ghost predicate ClosedBelow(schema: Schema, root: string) {
    forall n {:trigger ClosedAt(schema, n)} :: Reaches(schema, root, n) ==> ClosedAt(schema, n)
  }

  /** The fields of a message have different names, as in any Go struct. */
  ghost predicate DistinctFields(schema: Schema) {
    forall n, f, g :: n in schema && f in schema[n].fields && g in schema[n].fields && f.goName == g.goName ==> f == g
  }

  lemma {:induction false} ClosedMeansComplete(schema: Schema, owner: string, path: Path)
    requires owner in schema && ClosedBelow(schema, owner)
    ensures IsFrozenLeaf(schema, schema[owner].fields, path) <==> IsUnmarkedLeaf(schema, schema[owner].fields, path)
    decreases |path|
  {
    if path != [] {
      var fields := schema[owner].fields;
      ReachesItself(schema, owner);
      assert ClosedAt(schema, owner);
      forall f | f in fields && f.goName == path[0] ensures LeafVia(schema, f, path) <==> UnmarkedVia(schema, f, path) {
        if Nested(f) {
          assert Contains(schema, owner, f.goType);
          forall n | Reaches(schema, f.goType, n) ensures ClosedAt(schema, n) {
            ReachesFrom(schema, owner, f.goType, n);
          }
          ClosedMeansComplete(schema, f.goType, path[1..]);
        }
      }
    }
  }

  /** Below an unknown message lies an unmarked leaf that the generator leaves out. */
  lemma {:induction false} OpenMissesLeaf(schema: Schema, p: seq<string>, f: Field) returns (path: Path)
    requires IsPath(schema, p) && p[0] in schema && p[|p| - 1] in schema && DistinctFields(schema)
    requires f in schema[p[|p| - 1]].fields && Nested(f) && f.goType !in schema
    ensures IsUnmarkedLeaf(schema, schema[p[0]].fields, path) && !IsFrozenLeaf(schema, schema[p[0]].fields, path)
  {
    if |p| == 1 {
      path := [f.goName];
      assert UnmarkedVia(schema, f, path);
    } else {
      assert StepAt(schema, p, 0);
      var g :| g in schema[p[0]].fields && Nested(g) && g.goType == p[1];
      forall i | 0 <= i < |p[1..]| - 1 ensures StepAt(schema, p[1..], i) {
        assert StepAt(schema, p, i + 1);
      }
      var rest := OpenMissesLeaf(schema, p[1..], f);
      path := [g.goName] + rest;
      assert path[1..] == rest;
      assert UnmarkedVia(schema, g, path);
    }
  }

  /** The generator leaves no unmarked leaf out exactly when every nested field it can meet
      from the root has its message in the schema. */
  lemma CompleteIffClosed(schema: Schema, root: string)
    requires root in schema && DistinctFields(schema)
    ensures (forall path :: IsFrozenLeaf(schema, schema[root].fields, path) <==> IsUnmarkedLeaf(schema, schema[root].fields, path))
            <==> ClosedBelow(schema, root)
  {
    if ClosedBelow(schema, root) {
      forall path ensures IsFrozenLeaf(schema, schema[root].fields, path) <==> IsUnmarkedLeaf(schema, schema[root].fields, path) {
        ClosedMeansComplete(schema, root, path);
      }
    } else {
      var n :| Reaches(schema, root, n) && !ClosedAt(schema, n);
      var p :| IsPath(schema, p) && p[0] == root && p[|p| - 1] == n;
      var f :| f in schema[n].fields && Nested(f) && f.goType !in schema;
      var path := OpenMissesLeaf(schema, p, f);
    }
  }

  // ----- Marks on nested fields -----

  /** A path to a leaf with no marked field on it: what would stay frozen if a mark on a
      nested field allowed everything below it to change. */
  ghost predicate IsUnmarkedPath(schema: Schema, fields: seq<Field>, path: Path)
    decreases |path|
  {
    path != [] && exists f :: f in fields && f.goName == path[0] && !f.reload && UnmarkedPathVia(schema, f, path)
  }

  ghost predicate UnmarkedPathVia(schema: Schema, f: Field, path: Path)
    requires path != []
    decreases |path|, 0
  {
    if Nested(f) then f.goType in schema && IsUnmarkedPath(schema, schema[f.goType].fields, path[1..])
    else |path| == 1
  }

  ghost predicate HasFrozenLeaf(schema: Schema, n: string) {
    n in schema && exists path :: IsFrozenLeaf(schema, schema[n].fields, path)
  }

  /** A nested field of a message is marked reload, and its message has a frozen leaf. */
  ghost predicate MarkIgnoredAt(schema: Schema, n: string) {
    n in schema && exists f :: f in schema[n].fields && Nested(f) && f.reload && HasFrozenLeaf(schema, f.goType)
  }

  /** Such a field can be met from the root. */
  ghost predicate MarkIgnoredBelow(schema: Schema, root: string) {
    exists n :: Reaches(schema, root, n) && MarkIgnoredAt(schema, n)
  }

  lemma {:induction false} UnmarkedPathIsFrozen(schema: Schema, fields: seq<Field>, path: Path)
    requires IsUnmarkedPath(schema, fields, path)
    ensures IsFrozenLeaf(schema, fields, path)
    decreases |path|
  {
    var f :| f in fields && f.goName == path[0] && !f.reload && UnmarkedPathVia(schema, f, path);
    if Nested(f) {
      UnmarkedPathIsFrozen(schema, schema[f.goType].fields, path[1..]);
    }
    assert LeafVia(schema, f, path);
  }

  lemma {:induction false} FrozenPathIsUnmarked(schema: Schema, owner: string, path: Path)
    requires owner in schema && !MarkIgnoredBelow(schema, owner) && IsFrozenLeaf(schema, schema[owner].fields, path)
    ensures IsUnmarkedPath(schema, schema[owner].fields, path)
    decreases |path|
  {
    var f :| f in schema[owner].fields && f.goName == path[0] && LeafVia(schema, f, path);
    if Nested(f) {
      assert IsFrozenLeaf(schema, schema[f.goType].fields, path[1..]);
      assert HasFrozenLeaf(schema, f.goType);
      ReachesItself(schema, owner);
      assert !MarkIgnoredAt(schema, owner);
      assert Contains(schema, owner, f.goType);
      forall n | Reaches(schema, f.goType, n) ensures !MarkIgnoredAt(schema, n) {
        ReachesFrom(schema, owner, f.goType, n);
      }
      FrozenPathIsUnmarked(schema, f.goType, path[1..]);
    }
    assert UnmarkedPathVia(schema, f, path);
  }

  /** Below an ignored mark lies a leaf that the generator freezes all the same. */
  lemma {:induction false} IgnoredMarkFreezes(schema: Schema, p: seq<string>, f: Field) returns (path: Path)
    requires IsPath(schema, p) && p[0] in schema && p[|p| - 1] in schema && DistinctFields(schema)
    requires f in schema[p[|p| - 1]].fields && Nested(f) && f.reload && HasFrozenLeaf(schema, f.goType)
    ensures IsFrozenLeaf(schema, schema[p[0]].fields, path) && !IsUnmarkedPath(schema, schema[p[0]].fields, path)
  {
    if |p| == 1 {
      var rest :| IsFrozenLeaf(schema, schema[f.goType].fields, rest);
      path := [f.goName] + rest;
      assert path[1..] == rest;
      assert LeafVia(schema, f, path);
    } else {
      assert StepAt(schema, p, 0);
      var g :| g in schema[p[0]].fields && Nested(g) && g.goType == p[1];
      forall i | 0 <= i < |p[1..]| - 1 ensures StepAt(schema, p[1..], i) {
        assert StepAt(schema, p, i + 1);
      }
      var rest := IgnoredMarkFreezes(schema, p[1..], f);
      path := [g.goName] + rest;
      assert path[1..] == rest;
      assert LeafVia(schema, g, path);
    }
  }

  /** Every marked field, nested ones included, is free to change exactly when no nested field
      marked reload that can be met from the root leads to a frozen leaf. */
  lemma MarksHonouredIff(schema: Schema, root: string)
    requires root in schema && DistinctFields(schema)
    ensures (forall path :: IsFrozenLeaf(schema, schema[root].fields, path) <==> IsUnmarkedPath(schema, schema[root].fields, path))
            <==> !MarkIgnoredBelow(schema, root)
  {
    if MarkIgnoredBelow(schema, root) {
      var n :| Reaches(schema, root, n) && MarkIgnoredAt(schema, n);
      var p :| IsPath(schema, p) && p[0] == root && p[|p| - 1] == n;
      var f :| f in schema[n].fields && Nested(f) && f.reload && HasFrozenLeaf(schema, f.goType);
      var path := IgnoredMarkFreezes(schema, p, f);
    } else {
      forall path ensures IsFrozenLeaf(schema, schema[root].fields, path) <==> IsUnmarkedPath(schema, schema[root].fields, path) {
        if IsUnmarkedPath(schema, schema[root].fields, path) {
          UnmarkedPathIsFrozen(schema, schema[root].fields, path);
        }
        if IsFrozenLeaf(schema, schema[root].fields, path) {
          FrozenPathIsUnmarked(schema, root, path);
        }
      }
    }
  }

  // ----- Generating -----

  /** A path below `prefix` to a frozen leaf of the message at `prefix`. */
  ghost predicate FrozenBelow(schema: Schema, fields: seq<Field>, prefix: Path, p: Path) {
    prefix <= p && IsFrozenLeaf(schema, fields, p[|prefix|..])
  }

  ghost predicate FrozenVia(schema: Schema, f: Field, prefix: Path, p: Path) {
    prefix < p && p[|prefix|] == f.goName && LeafVia(schema, f, p[|prefix|..])
  }

  lemma FrozenByField(schema: Schema, fields: seq<Field>, f: Field, prefix: Path, p: Path)
    ensures FrozenBelow(schema, fields + [f], prefix, p) <==>
            FrozenBelow(schema, fields, prefix, p) || FrozenVia(schema, f, prefix, p)
  {
    if prefix < p {
      var q := p[|prefix|..];
      if IsFrozenLeaf(schema, fields + [f], q) {
        var g :| g in fields + [f] && g.goName == q[0] && LeafVia(schema, g, q);
        if g in fields {
          assert IsFrozenLeaf(schema, fields, q);
        }
      }
      if IsFrozenLeaf(schema, fields, q) {
        var g :| g in fields && g.goName == q[0] && LeafVia(schema, g, q);
        assert g in fields + [f];
      }
      assert f in fields + [f];
    }
  }

  lemma FrozenThroughMessage(schema: Schema, f: Field, prefix: Path, p: Path)
    requires Nested(f) && f.goType in schema
    ensures FrozenVia(schema, f, prefix, p) <==> FrozenBelow(schema, schema[f.goType].fields, prefix + [f.goName], p)
  {
    if prefix < p && p[|prefix|] == f.goName {
      assert p[|prefix|..][1..] == p[|prefix + [f.goName]|..];
      assert prefix + [f.goName] <= p;
    }
  }

  /** The generator: appends one comparison for each field that is neither nested nor marked
      reload, and goes into nested messages. It emits exactly the frozen leaves. */
  method WriteReloadChecks(schema: Schema, owner: string, prefix: Path, out0: seq<Path>, ghost rank: map<string, nat>)
    returns (out: seq<Path>)
    requires owner in schema && owner in rank && Measures(rank, schema)
    ensures forall p :: p in out <==> p in out0 || FrozenBelow(schema, schema[owner].fields, prefix, p)
    decreases rank[owner]
  {
    var fields := schema[owner].fields;
    out := out0;
    var i := 0;
    while i < |fields|
      invariant 0 <= i <= |fields|
      invariant forall p :: p in out <==> p in out0 || FrozenBelow(schema, fields[..i], prefix, p)
    {
      var f := fields[i];
      ghost var before := out;
      out := FieldChecks(schema, owner, f, prefix, out, rank);
      assert fields[..i + 1] == fields[..i] + [f];
      forall p ensures p in out <==> p in out0 || FrozenBelow(schema, fields[..i + 1], prefix, p) {
        FrozenByField(schema, fields[..i], f, prefix, p);
        assert p in out <==> p in before || FrozenVia(schema, f, prefix, p);
      }
      i := i + 1;
    }
    assert fields[..i] == fields;
  }

  method FieldChecks(schema: Schema, owner: string, f: Field, prefix: Path, out0: seq<Path>, ghost rank: map<string, nat>)
    returns (out: seq<Path>)
    requires owner in schema && f in schema[owner].fields && owner in rank && Measures(rank, schema)
    ensures forall p :: p in out <==> p in out0 || FrozenVia(schema, f, prefix, p)
    decreases rank[owner], 0
  {
    out := out0;
    if Nested(f) {
      if f.goType in schema {
        assert Contains(schema, owner, f.goType);
        out := WriteReloadChecks(schema, f.goType, prefix + [f.goName], out, rank);
        forall p ensures FrozenVia(schema, f, prefix, p) <==> FrozenBelow(schema, schema[f.goType].fields, prefix + [f.goName], p) {
          FrozenThroughMessage(schema, f, prefix, p);
        }
      }
      return;
    }
    if f.reload {
      return;
    }
    out := out + [prefix + [f.goName]];
    forall p ensures FrozenVia(schema, f, prefix, p) <==> p == prefix + [f.goName] {
      if FrozenVia(schema, f, prefix, p) {
        assert p == prefix + p[|prefix|..];
      }
    }
  }

  // ----- Reloading -----

  /** A loaded configuration, as the data of its leaves. */
  type Config = map<Path, string>

  function Leaf(c: Config, p: Path): Option<string> {
    if p in c then Some(c[p]) else None
  }

  /** The generated check: every emitted comparison holds. */
  predicate Passes(checks: seq<Path>, candidate: Config, current: Config) {
    forall i :: 0 <= i < |checks| ==> Leaf(candidate, checks[i]) == Leaf(current, checks[i])
  }

  /** Two configurations agree on every leaf that is not marked reload. */
  ghost predicate AgreeOnFrozen(schema: Schema, root: string, a: Config, b: Config)
    requires root in schema
  {
    forall p {:trigger IsFrozenLeaf(schema, schema[root].fields, p)} ::
      IsFrozenLeaf(schema, schema[root].fields, p) ==> Leaf(a, p) == Leaf(b, p)
  }

  /** The checks generated for a root message pass exactly when the two configurations agree
      on every leaf not marked reload; they compare every such leaf, opaque ones included,
      exactly when the schema is closed below the root; and they compare nothing below a
      marked field exactly when no mark on a nested field is ignored below the root. */
  method GenerateCheck(schema: Schema, root: string) returns (checks: seq<Path>)
    requires root in schema && !RecursiveBelow(schema, root)
    ensures forall a, b :: Passes(checks, a, b) <==> AgreeOnFrozen(schema, root, a, b)
    ensures DistinctFields(schema) ==>
              ((forall p :: p in checks <==> IsUnmarkedLeaf(schema, schema[root].fields, p)) <==> ClosedBelow(schema, root))
    ensures DistinctFields(schema) ==>
              ((forall p :: p in checks <==> IsUnmarkedPath(schema, schema[root].fields, p)) <==> !MarkIgnoredBelow(schema, root))
  {
    ghost var rank := RankBelow(schema, root);
    checks := WriteReloadChecks(schema, root, [], [], rank);
    forall p: Path ensures p in checks <==> IsFrozenLeaf(schema, schema[root].fields, p) {
      assert p[0..] == p && (p in checks <==> FrozenBelow(schema, schema[root].fields, [], p));
    }
    forall a, b ensures Passes(checks, a, b) <==> AgreeOnFrozen(schema, root, a, b) {
      ChecksAreFrozenLeaves(schema, root, checks, a, b);
    }
    if DistinctFields(schema) {
      CompleteIffClosed(schema, root);
      MarksHonouredIff(schema, root);
    }
  }

  lemma ChecksAreFrozenLeaves(schema: Schema, root: string, checks: seq<Path>, a: Config, b: Config)
    requires root in schema
    requires forall p :: p in checks <==> IsFrozenLeaf(schema, schema[root].fields, p)
    ensures Passes(checks, a, b) <==> AgreeOnFrozen(schema, root, a, b)
  {
    var fields := schema[root].fields;
    if Passes(checks, a, b) {
      forall p | IsFrozenLeaf(schema, fields, p) ensures Leaf(a, p) == Leaf(b, p) {
        assert p in checks;
      }
    }
    if AgreeOnFrozen(schema, root, a, b) {
      forall i | 0 <= i < |checks| ensures Leaf(a, checks[i]) == Leaf(b, checks[i]) {
        assert IsFrozenLeaf(schema, fields, checks[i]);
      }
    }
  }

  /** A configuration cell. A nil check accepts everything. */
  class ConfigEntry {
    const check: Option<seq<Path>>
    var data: Option<Config>

    constructor (check: Option<seq<Path>>)
      ensures this.check == check && data == None
    {
      this.check := check;
      data := None;
    }

    /** Replaces the data if loading succeeds and the check, if any, accepts the candidate
        against the current data; otherwise changes nothing. */
    method Reload(loaded: Option<Config>) returns (ok: bool)
      modifies this
      ensures ok <==> (loaded.Some? && (old(data).None? || check.None? || Passes(check.value, loaded.value, old(data).value)))
      ensures data == if ok then loaded else old(data)
    {
      if loaded.None? {
        return false;
      }
      var candidate := loaded.value;
      if data.Some? && check.Some? {
        if !Passes(check.value, candidate, data.value) {
          return false;
        }
      }
      data := Some(candidate);
      ok := true;
    }
  }

  /** The first configuration that loads. */
  function FirstLoaded(loads: seq<Option<Config>>): Option<Config> {
    if loads == [] then None
    else if loads[0].Some? then loads[0]
    else FirstLoaded(loads[1..])
  }

  lemma {:induction false} FirstLoadedMeaning(loads: seq<Option<Config>>, k: nat)
    requires k < |loads| && loads[k].Some?
    ensures FirstLoaded(loads).Some?
    ensures (forall i :: 0 <= i < k ==> loads[i].None?) ==> FirstLoaded(loads) == loads[k]
  {
    if loads[0].None? {
      FirstLoadedMeaning(loads[1..], k - 1);
    }
  }

  /** Load `k` succeeds and agrees with the first-loaded configuration on the frozen leaves. */
  ghost predicate Reloadable(schema: Schema, root: string, loads: seq<Option<Config>>, k: nat)
    requires root in schema && k < |loads|
  {
    loads[k].Some? && FirstLoaded(loads).Some? && AgreeOnFrozen(schema, root, loads[k].value, FirstLoaded(loads).value)
  }

  /** The last of the first `k` loads that was accepted. */
  function LastAccepted(loads: seq<Option<Config>>, verdicts: seq<bool>, k: nat): Option<Config>
    requires k <= |loads| && k <= |verdicts|
  {
    if k == 0 then None else if verdicts[k - 1] then loads[k - 1] else LastAccepted(loads, verdicts, k - 1)
  }

  lemma {:induction false} LastAcceptedSoFar(loads: seq<Option<Config>>, verdicts: seq<bool>, more: bool, k: nat)
    requires k <= |loads| && k <= |verdicts|
    ensures LastAccepted(loads, verdicts + [more], k) == LastAccepted(loads, verdicts, k)
  {
    if k > 0 {
      LastAcceptedSoFar(loads, verdicts, more, k - 1);
    }
  }

  /** What the entry holds after some loads: nothing if none succeeded, else a configuration
      that agrees with the first on the frozen leaves. */
  ghost predicate HoldsAfter(schema: Schema, root: string, loads: seq<Option<Config>>, k: nat, data: Option<Config>)
    requires root in schema && k <= |loads|
  {
    if data.None? then forall i :: 0 <= i < k ==> loads[i].None?
    else FirstLoaded(loads).Some? && AgreeOnFrozen(schema, root, data.value, FirstLoaded(loads).value)
  }

  /** A load passes the check against the current data exactly when it agrees with the
      first-loaded configuration. */
  lemma ReloadStep(schema: Schema, root: string, checks: seq<Path>, loads: seq<Option<Config>>, k: nat, data: Option<Config>)
    requires root in schema && k < |loads| && HoldsAfter(schema, root, loads, k, data)
    requires forall a, b :: Passes(checks, a, b) <==> AgreeOnFrozen(schema, root, a, b)
    ensures var ok := loads[k].Some? && (data.None? || Passes(checks, loads[k].value, data.value));
            && (ok <==> Reloadable(schema, root, loads, k))
            && HoldsAfter(schema, root, loads, k + 1, if ok then loads[k] else data)
  {
    if loads[k].Some? {
      FirstLoadedMeaning(loads, k);
      if data.Some? {
        var first := FirstLoaded(loads).value;
        if AgreeOnFrozen(schema, root, loads[k].value, data.value) {
          AgreeTransitive(schema, root, loads[k].value, data.value, first);
        }
        if AgreeOnFrozen(schema, root, loads[k].value, first) {
          AgreeTransitive(schema, root, loads[k].value, first, data.value);
        }
      }
    }
  }

  /** Any series of loads, failed ones included: a reload takes effect exactly when it loads
      and agrees with the first-loaded configuration on every leaf not marked reload, and the
      entry holds the last one that did. So those leaves keep their first-loaded values. */
  method RunReloads(schema: Schema, root: string, loads: seq<Option<Config>>)
    returns (verdicts: seq<bool>, data: Option<Config>)
    requires root in schema && !RecursiveBelow(schema, root)
    ensures |verdicts| == |loads|
    ensures forall k {:trigger Reloadable(schema, root, loads, k)} ::
              0 <= k < |loads| ==> (verdicts[k] <==> Reloadable(schema, root, loads, k))
    ensures data == LastAccepted(loads, verdicts, |loads|)
    ensures HoldsAfter(schema, root, loads, |loads|, data)
  {
    var checks := GenerateCheck(schema, root);
    var entry := new ConfigEntry(Some(checks));
    verdicts := [];
    while |verdicts| < |loads|
      invariant |verdicts| <= |loads| && fresh(entry) && entry.check == Some(checks)
      invariant forall k {:trigger Reloadable(schema, root, loads, k)} ::
        0 <= k < |verdicts| ==> (verdicts[k] <==> Reloadable(schema, root, loads, k))
      invariant entry.data == LastAccepted(loads, verdicts, |verdicts|)
      invariant HoldsAfter(schema, root, loads, |verdicts|, entry.data)
      decreases |loads| - |verdicts|
    {
      var k := |verdicts|;
      ReloadStep(schema, root, checks, loads, k, entry.data);
      var ok := entry.Reload(loads[k]);
      LastAcceptedSoFar(loads, verdicts, ok, k);
      verdicts := verdicts + [ok];
    }
    data := entry.data;
  }

  lemma AgreeTransitive(schema: Schema, root: string, a: Config, b: Config, c: Config)
    requires root in schema && AgreeOnFrozen(schema, root, a, b) && AgreeOnFrozen(schema, root, b, c)
    ensures AgreeOnFrozen(schema, root, a, c) && AgreeOnFrozen(schema, root, b, a)
  {
  }

  /** A root whose one field is nested and marked reload, and whose message has one leaf. */
  const MARKED: Schema := map[
    "Root" := MessageInfo("Root", [Field("Log", "LogConfig", true, false, true)], true),
    "LogConfig" := MessageInfo("LogConfig", [Field("Level", "string", false, false, false)], false)]

  lemma MarkedIsFlat()
    ensures !RecursiveBelow(MARKED, "Root")
    ensures IsFrozenLeaf(MARKED, MARKED["Root"].fields, ["Log", "Level"])
    ensures !IsUnmarkedPath(MARKED, MARKED["Root"].fields, ["Log", "Level"])
  {
    var rank := map["Root" := 1, "LogConfig" := 0];
    assert Measures(rank, MARKED);
    MeasureIffAcyclic(MARKED, "Root");
    var level := MARKED["LogConfig"].fields[0];
    assert LeafVia(MARKED, level, ["Level"]);
    assert IsFrozenLeaf(MARKED, MARKED["LogConfig"].fields, ["Level"]);
    var log := MARKED["Root"].fields[0];
    assert ["Log", "Level"][1..] == ["Level"];
    assert LeafVia(MARKED, log, ["Log", "Level"]);
  }

  /** A change below a marked nested field is rejected. */
  method MarkIgnoredExample(a: string, b: string) returns (verdicts: seq<bool>, data: Option<Config>)
    requires a != b
    ensures verdicts == [true, false] && data == Some(map[["Log", "Level"] := a])
  {
    MarkedIsFlat();
    var path := ["Log", "Level"];
    var loads := [Some(map[path := a]), Some(map[path := b])];
    verdicts, data := RunReloads(MARKED, "Root", loads);
    assert FirstLoaded(loads) == loads[0];
    assert Reloadable(MARKED, "Root", loads, 0);
    assert Leaf(loads[0].value, path) != Leaf(loads[1].value, path);
    assert !Reloadable(MARKED, "Root", loads, 1);
  }
}
