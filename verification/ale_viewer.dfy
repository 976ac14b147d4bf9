/** The missing-resource pass of the particle-effect viewer
    (`AleViewer.DetectResources`). Rendering, camera and UI are not
    modelled. The resolver queries and the two membership helpers of
    `ResourceDetection`, whose bodies are not part of this model, are
    parameters: total functions the caller supplies. */
module LancerEdit {
  import opened Common

  /** An unsigned 32-bit material id, as kept in the `matrefs` list. */
  newtype uint32 = x: int | 0 <= x < 0x1_0000_0000

  /** An effect node. `FxBasicAppearance` stands for that class and its
      subclasses (C#'s `is` test accepts both); every other
      node class is `OtherFxNode`. `nodeName` and `name` are the two names
      the diagnostic context prints. */
  datatype FxNode =
    | FxBasicAppearance(nodeName: string, name: string, texture: Option<string>)
    | OtherFxNode(nodeName: string, name: string)

  /** One entry of the effect's reference list. */
  datatype EffectReference = EffectReference(node: FxNode)

  /** The effect shown in the viewer: its name and its node references. */
  datatype Effect = Effect(name: string, references: seq<EffectReference>)

  /** A diagnostic record for a name that could not be resolved. */
  datatype MissingReference = MissingReference(description: string, context: string)

  /** The resolver: `findTexture(t)` holds when `FindTexture(t)` is not null,
      `frameAnimation(t)` when `TryGetFrameAnimation(t, ...)` succeeds. */
  datatype Resolver = Resolver(findTexture: string -> bool, frameAnimation: string -> bool)

  /** `ResourceDetection.HasTexture(texrefs, t)` and
      `ResourceDetection.HasMissing(missing, description)`. */
  datatype Detection = Detection(
    hasTexture: (seq<string>, string) -> bool,
    hasMissing: (seq<MissingReference>, string) -> bool)

  /** The three output lists handed to `DetectResources`. */
  datatype Lists = Lists(missing: seq<MissingReference>, matrefs: seq<uint32>, texrefs: seq<string>)

  /** The texture a reference names, if its node is a basic appearance
      with a non-null texture. */
  function TextureOf(r: EffectReference): Option<string>
  {
    match r.node
    case FxBasicAppearance(_, _, t) => t
    case OtherFxNode(_, _) => None
  }

  /** Neither a texture nor a frame animation of that name is found. */
  predicate Unresolved(res: Resolver, t: string)
  {
    !res.findTexture(t) && !res.frameAnimation(t)
  }

  /** The description of a missing texture. */
  function MissingDescription(t: string): string
  {
    "Texture: " + t
  }

  /** The context of a missing entry: `"{0}: {1} ({2})"` filled with the
      effect name, the node's `NodeName` and the node's `Name`. */
  function MissingContext(effectName: string, node: FxNode): string
  {
    effectName + ": " + node.nodeName + " (" + node.name + ")"
  }

  /** The body of the loop for one reference. */
  function DetectReference(res: Resolver, det: Detection, effectName: string, lists: Lists, r: EffectReference): Lists
  {
    match TextureOf(r)
    case None => lists
    case Some(t) =>
      var texrefs := if det.hasTexture(lists.texrefs, t) then lists.texrefs else lists.texrefs + [t];
      var str := MissingDescription(t);
      var missing :=
        if Unresolved(res, t) && !det.hasMissing(lists.missing, str)
        then lists.missing + [MissingReference(str, MissingContext(effectName, r.node))]
        else lists.missing;
      lists.(texrefs := texrefs, missing := missing)
  }

  /** The loop over `refs`, in order. Its result only ever extends the
      input lists: every texture added comes from a basic appearance among
      `refs`, every missing entry describes an unresolved texture of one
      of them with that node's context, and `matrefs` is untouched. */
  function DetectFrom(res: Resolver, det: Detection, effectName: string, lists: Lists, refs: seq<EffectReference>): (r: Lists)
    ensures r.matrefs == lists.matrefs
    ensures lists.texrefs <= r.texrefs
    ensures lists.missing <= r.missing
    ensures forall k :: |lists.texrefs| <= k < |r.texrefs| ==>
              exists j :: 0 <= j < |refs| && TextureOf(refs[j]) == Some(r.texrefs[k])
    ensures forall k :: |lists.missing| <= k < |r.missing| ==>
              exists j :: 0 <= j < |refs| && Reports(res, effectName, refs[j], r.missing[k])
    decreases |refs|
  {
    if |refs| == 0 then lists
    else
      var next := DetectReference(res, det, effectName, lists, refs[0]);
      var r := DetectFrom(res, det, effectName, next, refs[1..]);
      assert forall j :: 0 <= j < |refs[1..]| ==> refs[1..][j] == refs[j + 1];
      r
  }

  /** `m` is the entry `DetectResources` makes for an unresolved texture of
      reference `ref`. */
  predicate Reports(res: Resolver, effectName: string, ref: EffectReference, m: MissingReference)
  {
    TextureOf(ref).Some? && Unresolved(res, TextureOf(ref).value)
    && m == MissingReference(MissingDescription(TextureOf(ref).value), MissingContext(effectName, ref.node))
  }

  /** `DetectResources` of the viewer: the loop over the effect's references. */
  function DetectResources(res: Resolver, det: Detection, effect: Effect, lists: Lists): Lists
  {
    DetectFrom(res, det, effect.name, lists, effect.references)
  }

  /** Processing a list in two pieces is processing it whole. */
  lemma {:induction false} DetectFromAppend(res: Resolver, det: Detection, effectName: string, lists: Lists,
                                            a: seq<EffectReference>, b: seq<EffectReference>)
    ensures DetectFrom(res, det, effectName, lists, a + b)
         == DetectFrom(res, det, effectName, DetectFrom(res, det, effectName, lists, a), b)
    decreases |a|
  {
    if |a| > 0 {
      var next := DetectReference(res, det, effectName, lists, a[0]);
      assert (a + b)[0] == a[0];
      assert (a + b)[1..] == a[1..] + b;
      assert DetectFrom(res, det, effectName, lists, a + b) == DetectFrom(res, det, effectName, next, a[1..] + b);
      assert DetectFrom(res, det, effectName, lists, a) == DetectFrom(res, det, effectName, next, a[1..]);
      DetectFromAppend(res, det, effectName, next, a[1..], b);
    } else {
      assert a + b == b;
    }
  }

  /** References whose node is not a basic appearance contribute nothing:
      removing one from the list changes no output. */
  lemma NonAppearanceIgnored(res: Resolver, det: Detection, effectName: string, lists: Lists,
                             a: seq<EffectReference>, o: EffectReference, b: seq<EffectReference>)
    requires o.node.OtherFxNode?
    ensures DetectFrom(res, det, effectName, lists, a + [o] + b)
         == DetectFrom(res, det, effectName, lists, a + b)
  {
    assert a + [o] + b == a + ([o] + b);
    DetectFromAppend(res, det, effectName, lists, a, [o] + b);
    DetectFromAppend(res, det, effectName, lists, a, b);
    assert ([o] + b)[1..] == b;
  }

  /** One basic appearance with texture `t`: `t` is appended exactly when
      `HasTexture` reports it absent, and a missing entry is appended
      exactly when `t` is unresolved and `HasMissing` reports no entry with
      its description. */
  lemma DetectReferenceCases(res: Resolver, det: Detection, effectName: string, lists: Lists, r: EffectReference)
    requires TextureOf(r).Some?
    ensures var t := TextureOf(r).value;
            var out := DetectReference(res, det, effectName, lists, r);
            && (out.texrefs == lists.texrefs + [t] <==> !det.hasTexture(lists.texrefs, t))
            && (!det.hasTexture(lists.texrefs, t) || out.texrefs == lists.texrefs)
            && (out.missing != lists.missing
                <==> Unresolved(res, t) && !det.hasMissing(lists.missing, MissingDescription(t)))
            && (out.missing == lists.missing
                || out.missing == lists.missing + [MissingReference(MissingDescription(t), MissingContext(effectName, r.node))])
  {
  }

  /** Lists with no repeated element. */
  predicate Distinct<T(==)>(s: seq<T>)
  {
    forall i, j :: 0 <= i < j < |s| ==> s[i] != s[j]
  }

  /** The descriptions of a list of missing entries. */
  function Descriptions(ms: seq<MissingReference>): seq<string>
  {
    seq(|ms|, i requires 0 <= i < |ms| => ms[i].description)
  }

  /** `HasTexture` reports an absent name only when it is not in the list. */
  ghost predicate HasTextureComplete(det: Detection)
  {
    forall l: seq<string>, t: string :: t in l ==> det.hasTexture(l, t)
  }

  /** `HasTexture` reports a present name only when it is in the list. */
  ghost predicate HasTextureSound(det: Detection)
  {
    forall l: seq<string>, t: string :: det.hasTexture(l, t) ==> t in l
  }

  /** `HasMissing` reports a description absent only when no entry has it. */
  ghost predicate HasMissingComplete(det: Detection)
  {
    forall l: seq<MissingReference>, d: string :: d in Descriptions(l) ==> det.hasMissing(l, d)
  }

  /** `HasMissing` reports a description present only when some entry has it. */
  ghost predicate HasMissingSound(det: Detection)
  {
    forall l: seq<MissingReference>, d: string :: det.hasMissing(l, d) ==> d in Descriptions(l)
  }

  /** If `HasTexture` finds every name already listed, the pass never
      lists a texture twice. */
  lemma {:induction false} TexturesStayDistinct(res: Resolver, det: Detection, effectName: string, lists: Lists,
                                                refs: seq<EffectReference>)
    requires HasTextureComplete(det)
    requires Distinct(lists.texrefs)
    ensures Distinct(DetectFrom(res, det, effectName, lists, refs).texrefs)
    decreases |refs|
  {
    if |refs| > 0 {
      var next := DetectReference(res, det, effectName, lists, refs[0]);
      if TextureOf(refs[0]).Some? {
        var t := TextureOf(refs[0]).value;
        if !det.hasTexture(lists.texrefs, t) {
          assert t !in lists.texrefs;
          assert next.texrefs == lists.texrefs + [t];
        }
      }
      TexturesStayDistinct(res, det, effectName, next, refs[1..]);
    }
  }

  /** If `HasMissing` finds every description already listed, the pass
      never lists a missing description twice. */
  lemma {:induction false} DescriptionsStayDistinct(res: Resolver, det: Detection, effectName: string, lists: Lists,
                                                    refs: seq<EffectReference>)
    requires HasMissingComplete(det)
    requires Distinct(Descriptions(lists.missing))
    ensures Distinct(Descriptions(DetectFrom(res, det, effectName, lists, refs).missing))
    decreases |refs|
  {
    if |refs| > 0 {
      var next := DetectReference(res, det, effectName, lists, refs[0]);
      if next.missing != lists.missing {
        var t := TextureOf(refs[0]).value;
        var d := MissingDescription(t);
        assert !det.hasMissing(lists.missing, d);
        assert d !in Descriptions(lists.missing);
        assert Descriptions(next.missing) == Descriptions(lists.missing) + [d];
      }
      DescriptionsStayDistinct(res, det, effectName, next, refs[1..]);
    }
  }

  /** If `HasTexture` only finds names that are listed, every texture named
      by a basic appearance ends up in `texrefs`. */
  lemma {:induction false} EveryTextureListed(res: Resolver, det: Detection, effectName: string, lists: Lists,
                                              refs: seq<EffectReference>)
    requires HasTextureSound(det)
    ensures forall j :: 0 <= j < |refs| && TextureOf(refs[j]).Some? ==>
              TextureOf(refs[j]).value in DetectFrom(res, det, effectName, lists, refs).texrefs
    decreases |refs|
  {
    if |refs| > 0 {
      var next := DetectReference(res, det, effectName, lists, refs[0]);
      var r := DetectFrom(res, det, effectName, next, refs[1..]);
      EveryTextureListed(res, det, effectName, next, refs[1..]);
      if TextureOf(refs[0]).Some? {
        var t := TextureOf(refs[0]).value;
        assert t in next.texrefs;
        PrefixKeepsMember(next.texrefs, r.texrefs, t);
      }
      forall j | 1 <= j < |refs| && TextureOf(refs[j]).Some?
        ensures TextureOf(refs[j]).value in r.texrefs
      {
        assert refs[1..][j - 1] == refs[j];
      }
    }
  }

  /** If `HasMissing` only finds descriptions that are listed, every
      unresolved texture of a basic appearance has a missing entry with its
      description. */
  lemma {:induction false} EveryUnresolvedReported(res: Resolver, det: Detection, effectName: string, lists: Lists,
                                                   refs: seq<EffectReference>)
    requires HasMissingSound(det)
    ensures forall j :: 0 <= j < |refs| && TextureOf(refs[j]).Some? && Unresolved(res, TextureOf(refs[j]).value) ==>
              MissingDescription(TextureOf(refs[j]).value)
                in Descriptions(DetectFrom(res, det, effectName, lists, refs).missing)
    decreases |refs|
  {
    if |refs| > 0 {
      var next := DetectReference(res, det, effectName, lists, refs[0]);
      var r := DetectFrom(res, det, effectName, next, refs[1..]);
      EveryUnresolvedReported(res, det, effectName, next, refs[1..]);
      if TextureOf(refs[0]).Some? && Unresolved(res, TextureOf(refs[0]).value) {
        var d := MissingDescription(TextureOf(refs[0]).value);
        if det.hasMissing(lists.missing, d) {
          assert next.missing == lists.missing;
        } else {
          assert Descriptions(next.missing) == Descriptions(lists.missing) + [d];
        }
        assert d in Descriptions(next.missing);
        DescriptionsPrefix(next.missing, r.missing);
        PrefixKeepsMember(Descriptions(next.missing), Descriptions(r.missing), d);
      }
      forall j | 1 <= j < |refs| && TextureOf(refs[j]).Some? && Unresolved(res, TextureOf(refs[j]).value)
        ensures MissingDescription(TextureOf(refs[j]).value) in Descriptions(r.missing)
      {
        assert refs[1..][j - 1] == refs[j];
      }
    }
  }

  /** An element of a list is still there in any extension of it. */
  lemma PrefixKeepsMember<T>(a: seq<T>, b: seq<T>, x: T)
    requires a <= b && x in a
    ensures x in b
  {
    var i :| 0 <= i < |a| && a[i] == x;
    assert b[i] == x;
  }

  /** Extending the entries extends their descriptions. */
  lemma DescriptionsPrefix(a: seq<MissingReference>, b: seq<MissingReference>)
    requires a <= b
    ensures Descriptions(a) <= Descriptions(b)
  {
  }
}
