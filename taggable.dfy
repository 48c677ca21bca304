/** The per-owner-type tagging configuration of acts-as-taggable-on:
    `taggable_on` and the `acts_as_*` declarations that call it. The pure
    function `Declare` says what one declaration does to the configuration;
    the class `Registry` holds one owner type's configuration and updates it
    in place as the Ruby class attributes are. */
module Taggable {
  import opened Sequences

  /** A context name (`:tags`, `:skills`); symbols are modelled as strings. */
  type Context = string

  /** One argument of the `*tag_types` splat: `nil`, a symbol or string, or
      an array that may nest further. */
  datatype Arg = Nil | Name(name: Context) | List(items: seq<Arg>)

  /** `tag_types.to_a.flatten.compact.map(&:to_sym)`: the names at any depth,
      left to right, `nil` dropped. Flattening keeps exactly the names that
      occur at some depth. */
  function Contexts(args: seq<Arg>): (r: seq<Context>)
    ensures forall c :: c in r <==> Occurs(c, args)
    decreases args
  {
    if args == [] then []
    else
      var head := match args[0]
        case Nil => []
        case Name(c) => [c]
        case List(items) => Contexts(items);
      head + Contexts(args[1..])
  }

  /** The name `c` occurs somewhere in the (nested) arguments. */
  predicate Occurs(c: Context, args: seq<Arg>)
    decreases args
  {
    if args == [] then false
    else
      (match args[0]
         case Nil => false
         case Name(d) => d == c
         case List(items) => Occurs(c, items))
      || Occurs(c, args[1..])
  }

  /** Flattening a concatenation flattens each part, so `nil` entries vanish
      and nested arrays splice in place. */
  lemma {:induction false} ContextsAppend(a: seq<Arg>, b: seq<Arg>)
    ensures Contexts(a + b) == Contexts(a) + Contexts(b)
    decreases a
  {
    if a == [] {
      assert a + b == b;
    } else {
      assert (a + b)[0] == a[0];
      assert (a + b)[1..] == a[1..] + b;
      ContextsAppend(a[1..], b);
    }
  }

  /** The examples of `acts_as_taggable_on :languages, :skills` and of a
      splat holding `nil` and a nested array. */
  lemma ContextsExamples()
    ensures Contexts([Name("languages"), Name("skills")]) == ["languages", "skills"]
    ensures Contexts([Nil, List([Name("a"), List([Nil, Name("b")])]), Name("a")]) == ["a", "b", "a"]
  {
    assert [Name("languages"), Name("skills")][1..] == [Name("skills")];
    var nested := [Nil, Name("b")];
    assert nested[1..] == [Name("b")];
    var inner := [Name("a"), List(nested)];
    assert inner[1..] == [List(nested)];
    var args := [Nil, List(inner), Name("a")];
    assert args[1..] == [List(inner), Name("a")];
    assert args[1..][1..] == [Name("a")];
  }

  // ---------------------------------------------------------------------
  // The configuration and one declaration

  /** `taggable?`, `tag_types`, `latest_tag_types`, `preserve_tag_order` and
      `tags_have_scores` of one owner type. */
  datatype RegistryState = RegistryState(
    taggable: bool,
    tagTypes: seq<Context>,
    latestTagTypes: seq<Context>,
    preserveTagOrder: map<Context, bool>,
    tagsHaveScores: map<Context, bool>)

  /** Before any declaration: not taggable and nothing declared. */
  const Initial := RegistryState(false, [], [], map[], map[])

  /** Every declared context has both flags, and only those do; the latest
      contexts are among the declared ones. */
  ghost predicate Consistent(s: RegistryState) {
    (!s.taggable ==> s == Initial) &&
    (forall c :: c in s.preserveTagOrder <==> c in s.tagTypes) &&
    (forall c :: c in s.tagsHaveScores <==> c in s.tagTypes) &&
    (forall c :: c in s.latestTagTypes ==> c in s.tagTypes)
  }

  /** `contexts.each { |c| flags[c] = value }`: later writes win. */
  function SetAll(flags: map<Context, bool>, contexts: seq<Context>, value: bool): map<Context, bool>
    decreases |contexts|
  {
    if contexts == [] then flags
    else SetAll(flags, contexts[..|contexts| - 1], value)[contexts[|contexts| - 1] := value]
  }

  /** Writing one value under every listed context: the listed contexts map
      to it, every other key keeps its old value, and no other key appears. */
  lemma {:induction false} SetAllMeaning(flags: map<Context, bool>, contexts: seq<Context>, value: bool)
    ensures forall c :: c in SetAll(flags, contexts, value) <==> c in flags || c in contexts
    ensures forall c :: c in contexts ==> SetAll(flags, contexts, value)[c] == value
    ensures forall c :: c !in contexts && c in flags ==> SetAll(flags, contexts, value)[c] == flags[c]
    decreases |contexts|
  {
    if contexts != [] {
      var prefix := contexts[..|contexts| - 1];
      SetAllMeaning(flags, prefix, value);
      assert contexts == prefix + [contexts[|contexts| - 1]];
    }
  }

  /** `taggable_on(ordered, scored, *tag_types)` on the flattened contexts:
      the first declaration starts from fresh hashes and keeps the list as
      given; a later one merges with `(old + new).uniq`. Either way the type
      becomes taggable and the declared contexts are those declared before
      together with the call's. */
  function Declare(s: RegistryState, ordered: bool, scored: bool, contexts: seq<Context>): (r: RegistryState)
    ensures r.taggable
    ensures forall c :: c in r.tagTypes <==> (s.taggable && c in s.tagTypes) || c in contexts
  {
    if s.taggable then
      UniqMembers(s.tagTypes + contexts);
      RegistryState(true, Uniq(s.tagTypes + contexts), contexts,
        SetAll(s.preserveTagOrder, contexts, ordered), SetAll(s.tagsHaveScores, contexts, scored))
    else
      RegistryState(true, contexts, contexts, SetAll(map[], contexts, ordered), SetAll(map[], contexts, scored))
  }

  /** A declaration keeps the configuration consistent and makes the type
      taggable; the latest contexts are exactly those of the call. */
  lemma DeclareConsistent(s: RegistryState, ordered: bool, scored: bool, contexts: seq<Context>)
    requires Consistent(s)
    ensures Consistent(Declare(s, ordered, scored, contexts))
    ensures Declare(s, ordered, scored, contexts).taggable
    ensures Declare(s, ordered, scored, contexts).latestTagTypes == contexts
  {
    var r := Declare(s, ordered, scored, contexts);
    SetAllMeaning(s.preserveTagOrder, contexts, ordered);
    SetAllMeaning(s.tagsHaveScores, contexts, scored);
    SetAllMeaning(map[], contexts, ordered);
    SetAllMeaning(map[], contexts, scored);
    if s.taggable {
      UniqMembers(s.tagTypes + contexts);
    }
  }

  /** The first declaration keeps its contexts as given, duplicates included,
      and the flag hashes hold exactly those contexts. */
  lemma DeclareFirst(ordered: bool, scored: bool, contexts: seq<Context>)
    ensures var r := Declare(Initial, ordered, scored, contexts);
      && r.taggable && r.tagTypes == contexts && r.latestTagTypes == contexts
      && (forall c :: c in r.preserveTagOrder <==> c in contexts)
      && (forall c :: c in r.tagsHaveScores <==> c in contexts)
      && (forall c :: c in contexts ==> r.preserveTagOrder[c] == ordered && r.tagsHaveScores[c] == scored)
  {
    SetAllMeaning(map[], contexts, ordered);
    SetAllMeaning(map[], contexts, scored);
  }

  /** A re-declaration keeps the old contexts, deduplicated, in their
      first-occurrence order, then appends the new contexts not seen
      before, in their order; nothing is listed twice. */
  lemma DeclareMerge(s: RegistryState, ordered: bool, scored: bool, contexts: seq<Context>)
    requires s.taggable
    ensures var r := Declare(s, ordered, scored, contexts);
      && r.tagTypes == Uniq(s.tagTypes) + Uniq(Without(contexts, s.tagTypes))
      && NoDup(r.tagTypes)
      && (forall c :: c in r.tagTypes <==> c in s.tagTypes || c in contexts)
  {
    UniqAppend(s.tagTypes, contexts);
    UniqMembers(s.tagTypes + contexts);
  }

  /** After a re-declaration with no duplicates so far, the old list is an
      unchanged prefix and the rest is exactly the new contexts. */
  lemma DeclareExtends(s: RegistryState, ordered: bool, scored: bool, contexts: seq<Context>)
    requires s.taggable && NoDup(s.tagTypes)
    ensures var r := Declare(s, ordered, scored, contexts);
      && |s.tagTypes| <= |r.tagTypes| && r.tagTypes[..|s.tagTypes|] == s.tagTypes
      && (forall c :: c in r.tagTypes[|s.tagTypes|..] <==> c in contexts && c !in s.tagTypes)
  {
    UniqExtends(s.tagTypes, contexts);
  }

  /** Every context of the call gets the call's flags (last write wins);
      every other context keeps the flags it had, or, on a first
      declaration, has none. */
  lemma DeclareFlags(s: RegistryState, ordered: bool, scored: bool, contexts: seq<Context>, c: Context)
    ensures var r := Declare(s, ordered, scored, contexts);
      && (c in contexts ==>
            c in r.preserveTagOrder && r.preserveTagOrder[c] == ordered &&
            c in r.tagsHaveScores && r.tagsHaveScores[c] == scored)
      && (c !in contexts && s.taggable ==>
            (c in r.preserveTagOrder <==> c in s.preserveTagOrder) &&
            (c in s.preserveTagOrder ==> r.preserveTagOrder[c] == s.preserveTagOrder[c]) &&
            (c in r.tagsHaveScores <==> c in s.tagsHaveScores) &&
            (c in s.tagsHaveScores ==> r.tagsHaveScores[c] == s.tagsHaveScores[c]))
      && (c !in contexts && !s.taggable ==> c !in r.preserveTagOrder && c !in r.tagsHaveScores)
  {
    SetAllMeaning(s.preserveTagOrder, contexts, ordered);
    SetAllMeaning(s.tagsHaveScores, contexts, scored);
    SetAllMeaning(map[], contexts, ordered);
    SetAllMeaning(map[], contexts, scored);
  }

  /** Declaring `:genres` ordered and then `:moods` scored lists both, in
      that order, with each one's flags as declared. */
  lemma DeclareTwiceExample()
    ensures var r := Declare(Declare(Initial, true, false, ["genres"]), false, true, ["moods"]);
      && r.tagTypes == ["genres", "moods"]
      && r.preserveTagOrder == map["genres" := true, "moods" := false]
      && r.tagsHaveScores == map["genres" := false, "moods" := true]
  {
    var first := Declare(Initial, true, false, ["genres"]);
    assert first.tagTypes == ["genres"];
    assert ["genres", "moods"][..1] == ["genres"];
    assert Uniq(["genres"]) == ["genres"] by {
      assert ["genres"][..0] == [];
    }
    assert ["genres"] + ["moods"] == ["genres", "moods"];
  }

  // ---------------------------------------------------------------------
  // One owner type's registry, updated in place

  class Registry {
    /** `taggable?`: false until the first declaration redefines it. */
    var taggable: bool
    var tagTypes: seq<Context>
    var latestTagTypes: seq<Context>
    var preserveTagOrder: map<Context, bool>
    var tagsHaveScores: map<Context, bool>

    function State(): RegistryState
      reads this
    {
      RegistryState(taggable, tagTypes, latestTagTypes, preserveTagOrder, tagsHaveScores)
    }

    ghost predicate Valid()
      reads this
    {
      Consistent(State())
    }

    /** An owner type that has declared nothing. */
    constructor ()
      ensures Valid() && State() == Initial && !taggable
    {
      taggable := false;
      tagTypes := [];
      latestTagTypes := [];
      preserveTagOrder := map[];
      tagsHaveScores := map[];
    }

    /** `taggable_on(ordered, scored, *tag_types)`. */
    method TaggableOn(ordered: bool, scored: bool, tagTypesArg: seq<Arg>)
      requires Valid()
      modifies this
      ensures Valid() && taggable
      ensures State() == Declare(old(State()), ordered, scored, Contexts(tagTypesArg))
    {
      var newTagTypes := Contexts(tagTypesArg);
      DeclareConsistent(State(), ordered, scored, newTagTypes);
      if taggable {
        latestTagTypes := newTagTypes;
        tagTypes := Uniq(tagTypes + latestTagTypes);
      } else {
        tagTypes := newTagTypes;
        latestTagTypes := newTagTypes;
        preserveTagOrder := map[];
        tagsHaveScores := map[];
        taggable := true;
      }
      WriteFlags(ordered, scored);
    }

    /** `latest_tag_types.each { |ltt| preserve_tag_order[ltt] = ordered;
        tags_have_scores[ltt] = scored }`. */
    method WriteFlags(ordered: bool, scored: bool)
      modifies this`preserveTagOrder, this`tagsHaveScores
      ensures preserveTagOrder == SetAll(old(preserveTagOrder), latestTagTypes, ordered)
      ensures tagsHaveScores == SetAll(old(tagsHaveScores), latestTagTypes, scored)
    {
      ghost var baseOrder, baseScores := preserveTagOrder, tagsHaveScores;
      var i := 0;
      while i < |latestTagTypes|
        invariant 0 <= i <= |latestTagTypes|
        invariant preserveTagOrder == SetAll(baseOrder, latestTagTypes[..i], ordered)
        invariant tagsHaveScores == SetAll(baseScores, latestTagTypes[..i], scored)
      {
        assert latestTagTypes[..i + 1][..i] == latestTagTypes[..i];
        preserveTagOrder := preserveTagOrder[latestTagTypes[i] := ordered];
        tagsHaveScores := tagsHaveScores[latestTagTypes[i] := scored];
        i := i + 1;
      }
      assert latestTagTypes[..i] == latestTagTypes;
    }

    /** `acts_as_taggable`: `acts_as_taggable_on :tags`. */
    method ActsAsTaggable()
      requires Valid()
      modifies this
      ensures Valid() && taggable
      ensures State() == Declare(old(State()), false, false, ["tags"])
    {
      ActsAsTaggableOn([Name("tags")]);
    }

    /** `acts_as_scored_taggable`: `acts_as_scored_taggable_on :tags`. */
    method ActsAsScoredTaggable()
      requires Valid()
      modifies this
      ensures Valid() && taggable
      ensures State() == Declare(old(State()), false, true, ["tags"])
    {
      ActsAsScoredTaggableOn([Name("tags")]);
    }

    /** `acts_as_scored_taggable_on(*tag_types)`: unordered and scored. */
    method ActsAsScoredTaggableOn(tagTypesArg: seq<Arg>)
      requires Valid()
      modifies this
      ensures Valid() && taggable
      ensures State() == Declare(old(State()), false, true, Contexts(tagTypesArg))
    {
      TaggableOn(false, true, [List(tagTypesArg)]);
      SingleListContexts(tagTypesArg);
    }

    /** `acts_as_ordered_taggable`: `acts_as_ordered_taggable_on :tags`. */
    method ActsAsOrderedTaggable()
      requires Valid()
      modifies this
      ensures Valid() && taggable
      ensures State() == Declare(old(State()), true, false, ["tags"])
    {
      ActsAsOrderedTaggableOn([Name("tags")]);
    }

    /** `acts_as_taggable_on(*tag_types)`: unordered and unscored. */
    method ActsAsTaggableOn(tagTypesArg: seq<Arg>)
      requires Valid()
      modifies this
      ensures Valid() && taggable
      ensures State() == Declare(old(State()), false, false, Contexts(tagTypesArg))
    {
      TaggableOn(false, false, [List(tagTypesArg)]);
      SingleListContexts(tagTypesArg);
    }

    /** `acts_as_ordered_taggable_on(*tag_types)`: ordered and unscored. */
    method ActsAsOrderedTaggableOn(tagTypesArg: seq<Arg>)
      requires Valid()
      modifies this
      ensures Valid() && taggable
      ensures State() == Declare(old(State()), true, false, Contexts(tagTypesArg))
    {
      TaggableOn(true, false, [List(tagTypesArg)]);
      SingleListContexts(tagTypesArg);
    }
  }

  /** The wrappers pass their splat on as one array argument, which
      `flatten` opens again. */
  lemma SingleListContexts(args: seq<Arg>)
    ensures Contexts([List(args)]) == Contexts(args)
  {
    assert [List(args)][1..] == [];
  }
}
