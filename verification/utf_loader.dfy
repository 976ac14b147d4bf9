/** Format dispatch and resource-library selection of the UTF container
    loader. The container reader is not modelled: both operations start
    from the already-parsed top-level children of the root node. */
module Utf {
  import opened Common

  /** A node of the parsed container: a name and either a raw payload
      (leaf) or an ordered list of children (intermediate node). */
  datatype Node = Node(name: string, payload: Payload)
  datatype Payload = Leaf(data: seq<bv8>) | Intermediate(children: seq<Node>)

  /** The drawable variant the loader constructs: `SphFile`, `ModelFile`,
      `CmpFile` and `DfmFile` respectively. */
  datatype DrawableKind = Sphere | SingleLevelModel | CompoundModel | DeformableModel

  /** Either the kind of drawable built, or the "Not a drawable file" error. */
  datatype LoadResult = Loaded(kind: DrawableKind) | NotDrawable

  // ---------------------------------------------------------------------
  // Vocabulary over the lower-cased names of the top-level children
  // ---------------------------------------------------------------------

  /** The three markers that end the scan at once. */
  predicate IsImmediate(l: string)
  {
    l == "sphere" || l == "vmeshpart" || l == "skeleton"
  }

  /** The variant an immediate marker selects. */
  function ImmediateKind(l: string): DrawableKind
    requires IsImmediate(l)
  {
    if l == "sphere" then Sphere
    else if l == "vmeshpart" then SingleLevelModel
    else DeformableModel
  }

  /** Some top-level child is named `l`, in any letter case. */
  predicate HasChild(nodes: seq<Node>, l: string)
  {
    exists i :: 0 <= i < |nodes| && Lower(nodes[i].name) == l
  }

  /** No top-level child carries an immediate marker. */
  predicate NoImmediate(nodes: seq<Node>)
  {
    forall i :: 0 <= i < |nodes| ==> !IsImmediate(Lower(nodes[i].name))
  }

  /** Child `i` is the first, in stored order, to carry an immediate marker. */
  predicate FirstImmediate(nodes: seq<Node>, i: int)
  {
    0 <= i < |nodes| && IsImmediate(Lower(nodes[i].name)) && NoImmediate(nodes[..i])
  }

  /** The decision taken after a scan that met no immediate marker. */
  function Finish(cmpnd: bool, multilevel: bool): LoadResult
  {
    if cmpnd then Loaded(CompoundModel)
    else if multilevel then Loaded(SingleLevelModel)
    else NotDrawable
  }

  // ---------------------------------------------------------------------
  // LoadDrawable
  // ---------------------------------------------------------------------

  /** The scan of `LoadDrawable` over the children not yet visited, with the
      two flags gathered so far. The checks run in the order `LoadDrawable` makes them:
      sphere, vmeshpart, the two flags, then skeleton. */
  function Scan(nodes: seq<Node>, cmpnd: bool, multilevel: bool): LoadResult
    decreases |nodes|
  {
    if |nodes| == 0 then Finish(cmpnd, multilevel)
    else
      var l := Lower(nodes[0].name);
      if l == "sphere" then Loaded(Sphere)
      else if l == "vmeshpart" then Loaded(SingleLevelModel)
      else
        var c := cmpnd || l == "cmpnd";
        var m := multilevel || l == "multilevel";
        if l == "skeleton" then Loaded(DeformableModel)
        else Scan(nodes[1..], c, m)
  }

  /** The classification `LoadDrawable` performs on the root's children. */
  function Classify(nodes: seq<Node>): LoadResult
  {
    Scan(nodes, false, false)
  }

  /** The first immediate marker decides the scan, whatever flags it carries. */
  lemma {:induction false} ScanFirstImmediate(nodes: seq<Node>, i: int, cmpnd: bool, multilevel: bool)
    requires FirstImmediate(nodes, i)
    ensures Scan(nodes, cmpnd, multilevel) == Loaded(ImmediateKind(Lower(nodes[i].name)))
    decreases i
  {
    if i > 0 {
      var l := Lower(nodes[0].name);
      assert nodes[..i][0] == nodes[0];
      assert !IsImmediate(l);
      var rest := nodes[1..];
      var pre := rest[..i - 1];
      forall j | 0 <= j < |pre|
        ensures !IsImmediate(Lower(pre[j].name))
      {
        assert pre[j] == nodes[..i][j + 1];
      }
      assert rest[i - 1] == nodes[i];
      ScanFirstImmediate(rest, i - 1, cmpnd || l == "cmpnd", multilevel || l == "multilevel");
    }
  }

  /** Without immediate markers the scan reaches the end and decides on the
      flags, each set if it was set before or some child carries its name. */
  lemma {:induction false} ScanNoImmediate(nodes: seq<Node>, cmpnd: bool, multilevel: bool)
    requires NoImmediate(nodes)
    ensures Scan(nodes, cmpnd, multilevel)
         == Finish(cmpnd || HasChild(nodes, "cmpnd"), multilevel || HasChild(nodes, "multilevel"))
    decreases |nodes|
  {
    if |nodes| > 0 {
      var l := Lower(nodes[0].name);
      var rest := nodes[1..];
      assert !IsImmediate(Lower(nodes[0].name));
      assert NoImmediate(rest) by {
        forall j | 0 <= j < |rest| ensures !IsImmediate(Lower(rest[j].name)) {
          assert rest[j] == nodes[j + 1];
        }
      }
      ScanNoImmediate(rest, cmpnd || l == "cmpnd", multilevel || l == "multilevel");
      HasChildCons(nodes, "cmpnd");
      HasChildCons(nodes, "multilevel");
    }
  }

  /** A name occurs among the children iff it is the first child's name or
      it occurs among the rest. */
  lemma HasChildCons(nodes: seq<Node>, l: string)
    requires |nodes| > 0
    ensures HasChild(nodes, l) <==> Lower(nodes[0].name) == l || HasChild(nodes[1..], l)
  {
  }

  /** Any immediate marker present means there is a first one. */
  lemma {:induction false} FirstImmediateExists(nodes: seq<Node>, k: int)
    requires 0 <= k < |nodes| && IsImmediate(Lower(nodes[k].name))
    ensures exists i :: FirstImmediate(nodes, i)
    decreases k
  {
    if NoImmediate(nodes[..k]) {
      assert FirstImmediate(nodes, k);
    } else {
      var j :| 0 <= j < |nodes[..k]| && IsImmediate(Lower(nodes[..k][j].name));
      assert nodes[..k][j] == nodes[j];
      FirstImmediateExists(nodes, j);
    }
  }

  /** The first child named `sphere`, `vmeshpart` or `skeleton` (any case)
      decides the variant; `cmpnd` and `multilevel` children have no effect
      wherever they stand, and a later immediate marker is never consulted. */
  lemma ImmediateMarkerDecides(nodes: seq<Node>, i: int)
    requires FirstImmediate(nodes, i)
    ensures Classify(nodes) == Loaded(ImmediateKind(Lower(nodes[i].name)))
  {
    ScanFirstImmediate(nodes, i, false, false);
  }

  /** Without immediate markers, a `cmpnd` child gives the compound model,
      even when a `multilevel` child is present too. */
  lemma CompoundBeforeMultilevel(nodes: seq<Node>)
    requires NoImmediate(nodes) && HasChild(nodes, "cmpnd")
    ensures Classify(nodes) == Loaded(CompoundModel)
  {
    ScanNoImmediate(nodes, false, false);
  }

  /** Without immediate markers and without `cmpnd`, a `multilevel` child
      gives the single-level model, the variant `vmeshpart` selects. */
  lemma MultilevelFallback(nodes: seq<Node>)
    requires NoImmediate(nodes) && !HasChild(nodes, "cmpnd") && HasChild(nodes, "multilevel")
    ensures Classify(nodes) == Loaded(SingleLevelModel)
    ensures Classify(nodes) == Loaded(ImmediateKind("vmeshpart"))
  {
    ScanNoImmediate(nodes, false, false);
  }

  /** Classification fails exactly when none of the five marker names occurs
      among the top-level children. */
  lemma NotDrawableIff(nodes: seq<Node>)
    ensures Classify(nodes) == NotDrawable
        <==> (!HasChild(nodes, "sphere") && !HasChild(nodes, "vmeshpart")
              && !HasChild(nodes, "skeleton") && !HasChild(nodes, "cmpnd")
              && !HasChild(nodes, "multilevel"))
  {
    if NoImmediate(nodes) {
      ScanNoImmediate(nodes, false, false);
    } else {
      var k :| 0 <= k < |nodes| && IsImmediate(Lower(nodes[k].name));
      FirstImmediateExists(nodes, k);
      var i :| FirstImmediate(nodes, i);
      ScanFirstImmediate(nodes, i, false, false);
      assert HasChild(nodes, Lower(nodes[k].name));
    }
  }

  /** Letter case never matters: children whose names agree once lower-cased
      classify identically. */
  lemma {:induction false} ScanIgnoresCase(a: seq<Node>, b: seq<Node>, cmpnd: bool, multilevel: bool)
    requires |a| == |b|
    requires forall i :: 0 <= i < |a| ==> Lower(a[i].name) == Lower(b[i].name)
    ensures Scan(a, cmpnd, multilevel) == Scan(b, cmpnd, multilevel)
    decreases |a|
  {
    if |a| > 0 {
      var l := Lower(a[0].name);
      assert l == Lower(b[0].name);
      forall i | 0 <= i < |a[1..]| ensures Lower(a[1..][i].name) == Lower(b[1..][i].name) {
        assert a[1..][i] == a[i + 1] && b[1..][i] == b[i + 1];
      }
      ScanIgnoresCase(a[1..], b[1..], cmpnd || l == "cmpnd", multilevel || l == "multilevel");
    }
  }

  /** Case-insensitivity of `LoadDrawable` over whole child lists. */
  lemma ClassifyIgnoresCase(a: seq<Node>, b: seq<Node>)
    requires |a| == |b|
    requires forall i :: 0 <= i < |a| ==> Lower(a[i].name) == Lower(b[i].name)
    ensures Classify(a) == Classify(b)
  {
    ScanIgnoresCase(a, b, false, false);
  }

  /** Among immediate markers the order in the list decides, not the kind:
      `[Skeleton, sphere]` is deformable, `[SPHERE, skeleton]` is a sphere. */
  lemma MarkerOrderDecides()
    ensures Classify([Node("Skeleton", Intermediate([])), Node("sphere", Intermediate([]))])
         == Loaded(DeformableModel)
    ensures Classify([Node("SPHERE", Intermediate([])), Node("skeleton", Intermediate([]))])
         == Loaded(Sphere)
  {
  }

  /** `LoadDrawable` as `UtfLoader.LoadDrawable` writes it: one pass over the children
      with an early return on an immediate marker and two flags decided
      after the loop. It agrees with `Classify`, and its result is stated
      directly in terms of the first immediate marker and the flags. */
  method LoadDrawable(nodes: seq<Node>) returns (r: LoadResult)
    ensures r == Classify(nodes)
    ensures forall i :: FirstImmediate(nodes, i) ==> r == Loaded(ImmediateKind(Lower(nodes[i].name)))
    ensures NoImmediate(nodes) ==> r == Finish(HasChild(nodes, "cmpnd"), HasChild(nodes, "multilevel"))
  {
    var cmpnd := false;
    var multilevel := false;
    var k := 0;
    while k < |nodes|
      invariant 0 <= k <= |nodes|
      invariant NoImmediate(nodes[..k])
      invariant cmpnd == HasChild(nodes[..k], "cmpnd")
      invariant multilevel == HasChild(nodes[..k], "multilevel")
    {
      var l := Lower(nodes[k].name);
      assert nodes[..k + 1] == nodes[..k] + [nodes[k]];
      if l == "sphere" || l == "vmeshpart" {
        assert FirstImmediate(nodes, k);
        ImmediateMarkerDecides(nodes, k);
        FirstImmediateUnique(nodes, k);
        return Loaded(ImmediateKind(l));
      }
      if l == "cmpnd" {
        cmpnd := true;
      }
      if l == "multilevel" {
        multilevel := true;
      }
      if l == "skeleton" {
        assert FirstImmediate(nodes, k);
        ImmediateMarkerDecides(nodes, k);
        FirstImmediateUnique(nodes, k);
        return Loaded(DeformableModel);
      }
      HasChildSnoc(nodes[..k], nodes[k], "cmpnd");
      HasChildSnoc(nodes[..k], nodes[k], "multilevel");
      k := k + 1;
    }
    assert nodes[..k] == nodes;
    ScanNoImmediate(nodes, false, false);
    if cmpnd {
      return Loaded(CompoundModel);
    }
    if multilevel {
      return Loaded(SingleLevelModel);
    }
    return NotDrawable;
  }

  /** There is at most one first immediate marker. */
  lemma FirstImmediateUnique(nodes: seq<Node>, k: int)
    requires FirstImmediate(nodes, k)
    ensures forall i :: FirstImmediate(nodes, i) ==> i == k
  {
  }

  /** Appending one child adds its name to the names present. */
  lemma HasChildSnoc(nodes: seq<Node>, n: Node, l: string)
    ensures HasChild(nodes + [n], l) <==> HasChild(nodes, l) || Lower(n.name) == l
  {
    var s := nodes + [n];
    if HasChild(nodes, l) {
      var i :| 0 <= i < |nodes| && Lower(nodes[i].name) == l;
      assert s[i] == nodes[i];
    }
    if Lower(n.name) == l {
      assert s[|nodes|] == n;
    }
    if HasChild(s, l) {
      var i :| 0 <= i < |s| && Lower(s[i].name) == l;
      if i < |nodes| {
        assert s[i] == nodes[i];
      }
    }
  }

  // ---------------------------------------------------------------------
  // LoadResourceFile
  // ---------------------------------------------------------------------

  /** The three out-parameters of `LoadResourceFile`: each holds the child
      its library (`MatFile`, `TxmFile`, `VmsFile`) was built from, or
      nothing. The library constructors themselves are not modelled. */
  datatype LibrarySlots = LibrarySlots(materials: Option<Node>, textures: Option<Node>, vms: Option<Node>)

  const MaterialLibraryName: string := "material library"
  const TextureLibraryName: string := "texture library"
  const VmsLibraryName: string := "vmeshlibrary"

  /** One iteration of the loop: the child's lower-cased name selects at
      most one slot, which is overwritten; any other name is ignored. */
  function LoadStep(slots: LibrarySlots, n: Node): LibrarySlots
  {
    match Lower(n.name)
    case "material library" => slots.(materials := Some(n))
    case "texture library" => slots.(textures := Some(n))
    case "vmeshlibrary" => slots.(vms := Some(n))
    case _ => slots
  }

  /** `slot` holds the last child named `l` (any case), and is empty
      exactly when no child carries that name. */
  predicate LastNamed(nodes: seq<Node>, l: string, slot: Option<Node>)
  {
    (slot.None? <==> !HasChild(nodes, l))
    && (slot.Some? ==>
          exists i :: 0 <= i < |nodes| && nodes[i] == slot.value && Lower(nodes[i].name) == l
                      && forall j :: i < j < |nodes| ==> Lower(nodes[j].name) != l)
  }

  /** `LoadResourceFile`: all slots start empty and the children are
      visited in order, so each slot ends up with the last child carrying
      its name. */
  function LoadResourceFile(nodes: seq<Node>): (r: LibrarySlots)
    ensures LastNamed(nodes, MaterialLibraryName, r.materials)
    ensures LastNamed(nodes, TextureLibraryName, r.textures)
    ensures LastNamed(nodes, VmsLibraryName, r.vms)
    decreases |nodes|
  {
    if |nodes| == 0 then LibrarySlots(None, None, None)
    else
      var prefix := nodes[..|nodes| - 1];
      var n := nodes[|nodes| - 1];
      assert nodes == prefix + [n];
      var before := LoadResourceFile(prefix);
      LastNamedSnoc(prefix, n, MaterialLibraryName, before.materials);
      LastNamedSnoc(prefix, n, TextureLibraryName, before.textures);
      LastNamedSnoc(prefix, n, VmsLibraryName, before.vms);
      LoadStep(before, n)
  }

  /** How the last-named relation extends by one child: the new child wins
      if it carries the name, otherwise the old slot stays. */
  lemma LastNamedSnoc(nodes: seq<Node>, n: Node, l: string, slot: Option<Node>)
    requires LastNamed(nodes, l, slot)
    ensures Lower(n.name) == l ==> LastNamed(nodes + [n], l, Some(n))
    ensures Lower(n.name) != l ==> LastNamed(nodes + [n], l, slot)
  {
    var s := nodes + [n];
    HasChildSnoc(nodes, n, l);
    if Lower(n.name) == l {
      assert s[|nodes|] == n;
    } else if slot.Some? {
      var i :| 0 <= i < |nodes| && nodes[i] == slot.value && Lower(nodes[i].name) == l
               && forall j :: i < j < |nodes| ==> Lower(nodes[j].name) != l;
      assert s[i] == nodes[i];
      forall j | i < j < |s| ensures Lower(s[j].name) != l {
        if j < |nodes| {
          assert s[j] == nodes[j];
        }
      }
    }
  }

  /** The last-named relation determines the slot. */
  lemma LastNamedUnique(nodes: seq<Node>, l: string, a: Option<Node>, b: Option<Node>)
    requires LastNamed(nodes, l, a) && LastNamed(nodes, l, b)
    ensures a == b
  {
  }

  /** A child whose name is none of the three library names changes no
      slot, wherever it stands among the children. */
  lemma UnrelatedChildIgnored(a: seq<Node>, n: Node, b: seq<Node>)
    requires Lower(n.name) != MaterialLibraryName
    requires Lower(n.name) != TextureLibraryName
    requires Lower(n.name) != VmsLibraryName
    ensures LoadResourceFile(a + [n] + b) == LoadResourceFile(a + b)
  {
    var with := a + [n] + b;
    var without := a + b;
    var r := LoadResourceFile(without);
    DropUnrelated(a, n, b, MaterialLibraryName, r.materials);
    DropUnrelated(a, n, b, TextureLibraryName, r.textures);
    DropUnrelated(a, n, b, VmsLibraryName, r.vms);
    var q := LoadResourceFile(with);
    LastNamedUnique(with, MaterialLibraryName, q.materials, r.materials);
    LastNamedUnique(with, TextureLibraryName, q.textures, r.textures);
    LastNamedUnique(with, VmsLibraryName, q.vms, r.vms);
  }

  /** Inserting a child not named `l` keeps the last child named `l`. */
  lemma DropUnrelated(a: seq<Node>, n: Node, b: seq<Node>, l: string, slot: Option<Node>)
    requires Lower(n.name) != l
    requires LastNamed(a + b, l, slot)
    ensures LastNamed(a + [n] + b, l, slot)
  {
    var s := a + b;
    var t := a + [n] + b;
    assert forall i :: 0 <= i < |a| ==> t[i] == s[i];
    assert forall i :: |a| < i < |t| ==> t[i] == s[i - 1];
    if HasChild(s, l) {
      var i :| 0 <= i < |s| && Lower(s[i].name) == l;
      if i < |a| { assert t[i] == s[i]; } else { assert t[i + 1] == s[i]; }
    }
    if HasChild(t, l) {
      var i :| 0 <= i < |t| && Lower(t[i].name) == l;
      if i < |a| { assert t[i] == s[i]; } else { assert t[i] == s[i - 1]; }
    }
    if slot.Some? {
      var i :| 0 <= i < |s| && s[i] == slot.value && Lower(s[i].name) == l
               && forall j :: i < j < |s| ==> Lower(s[j].name) != l;
      var i' := if i < |a| then i else i + 1;
      assert t[i'] == s[i];
      forall j | i' < j < |t| ensures Lower(t[j].name) != l {
        if j < |a| {
          assert t[j] == s[j];
        } else if j > |a| {
          assert t[j] == s[j - 1];
        }
      }
    }
  }

  /** A library child overwrites only its own slot: the other two keep
      whatever the earlier children put there. */
  lemma LibraryChildSetsOwnSlot(nodes: seq<Node>, n: Node)
    ensures Lower(n.name) == MaterialLibraryName ==>
      LoadResourceFile(nodes + [n]) == LoadResourceFile(nodes).(materials := Some(n))
    ensures Lower(n.name) == TextureLibraryName ==>
      LoadResourceFile(nodes + [n]) == LoadResourceFile(nodes).(textures := Some(n))
    ensures Lower(n.name) == VmsLibraryName ==>
      LoadResourceFile(nodes + [n]) == LoadResourceFile(nodes).(vms := Some(n))
  {
    assert (nodes + [n])[..|nodes + [n]| - 1] == nodes;
  }

  /** A later library child of the same kind replaces an earlier one. */
  lemma LaterLibraryOverwrites(a: seq<Node>, n: Node, b: seq<Node>)
    requires Lower(n.name) == MaterialLibraryName
    requires !HasChild(b, MaterialLibraryName)
    ensures LoadResourceFile(a + [n] + b).materials == Some(n)
  {
    var s := a + [n] + b;
    var r := LoadResourceFile(s);
    assert s[|a|] == n;
    assert forall j :: |a| < j < |s| ==> s[j] == b[j - |a| - 1];
    assert LastNamed(s, MaterialLibraryName, Some(n));
    LastNamedUnique(s, MaterialLibraryName, r.materials, Some(n));
  }
}
