/** Find-or-create resolution of tag names against the tag table:
    `find_or_create_all_with_like_by_name` and
    `find_or_create_with_like_by_name`. The pure functions below specify
    each step; the class `TagStore` runs them on a mutable table. */
module TagResolution {
  import opened Wrappers
  import opened Text
  import opened Sequences
  import opened Tags

  /** A returned list of tags together with the tag table left behind. */
  datatype Resolution = Resolution(tags: seq<Tag>, store: seq<Tag>)

  /** A single returned tag together with the tag table left behind. */
  datatype Found = Found(tag: Tag, store: seq<Tag>)

  // ---------------------------------------------------------------------
  // Step 1: `Hash[list.map { |str| name_and_score(str) }]`

  /** Every entry has a `name:digits` form (scored mode needs a name). */
  predicate AllScored(list: seq<string>) {
    forall i :: 0 <= i < |list| ==> ScoredEntry(list[i])
  }

  /** One entry has a `name:digits` form. */
  predicate ScoredEntry(s: string) {
    NoNewline(s) && NameAndScore(s).name.Some?
  }

  function ScoredPairs(list: seq<string>): seq<(string, nat)>
    requires AllScored(list)
  {
    seq(|list|, i requires 0 <= i < |list| => (NameAndScore(list[i]).name.value, NameAndScore(list[i]).score))
  }

  function Firsts(pairs: seq<(string, nat)>): seq<string> {
    seq(|pairs|, i requires 0 <= i < |pairs| => pairs[i].0)
  }

  /** `Hash[pairs]`: later pairs overwrite earlier ones. */
  function HashOf(pairs: seq<(string, nat)>): map<string, nat>
    decreases |pairs|
  {
    if pairs == [] then map[]
    else HashOf(pairs[..|pairs| - 1])[pairs[|pairs| - 1].0 := pairs[|pairs| - 1].1]
  }

  /** The keys of `Hash[pairs]` are the names of the pairs, and each maps to
      the score of the LAST pair with that name. */
  lemma {:induction false} HashOfLastWins(pairs: seq<(string, nat)>)
    ensures forall k :: k in HashOf(pairs) <==> k in Firsts(pairs)
    ensures forall i :: 0 <= i < |pairs| && (forall j :: i < j < |pairs| ==> pairs[j].0 != pairs[i].0) ==>
      pairs[i].0 in HashOf(pairs) && HashOf(pairs)[pairs[i].0] == pairs[i].1
    decreases |pairs|
  {
    if pairs != [] {
      var p := pairs[..|pairs| - 1];
      HashOfLastWins(p);
      assert Firsts(pairs) == Firsts(p) + [pairs[|pairs| - 1].0];
      forall i | 0 <= i < |pairs| && (forall j :: i < j < |pairs| ==> pairs[j].0 != pairs[i].0)
        ensures pairs[i].0 in HashOf(pairs) && HashOf(pairs)[pairs[i].0] == pairs[i].1
      {
        if i < |p| {
          assert pairs[i] == p[i];
          assert forall j :: i < j < |p| ==> p[j] == pairs[j];
        }
      }
    }
  }

  /** `scores.keys`: the parsed names, first occurrence first. */
  function RequestedNames(scored: bool, list: seq<string>): seq<string>
    requires scored ==> AllScored(list)
  {
    if scored then Uniq(Firsts(ScoredPairs(list))) else list
  }

  function ScoreTable(list: seq<string>): map<string, nat>
    requires AllScored(list)
  {
    HashOf(ScoredPairs(list))
  }

  /** In scored mode the requested names are the parsed names, each once. */
  lemma ScoredRequestNames(list: seq<string>)
    requires AllScored(list)
    ensures NoDup(RequestedNames(true, list))
    ensures forall n :: n in RequestedNames(true, list) <==>
      exists i :: 0 <= i < |list| && NameAndScore(list[i]).name == Some(n)
  {
    var firsts := Firsts(ScoredPairs(list));
    UniqMembers(firsts);
    forall n ensures n in firsts <==> exists i :: 0 <= i < |list| && NameAndScore(list[i]).name == Some(n) {
      FirstsOfScored(list, n);
    }
  }

  /** The first components of the parsed pairs are the parsed names. */
  lemma FirstsOfScored(list: seq<string>, n: string)
    requires AllScored(list)
    ensures n in Firsts(ScoredPairs(list)) <==> exists i :: 0 <= i < |list| && NameAndScore(list[i]).name == Some(n)
  {
    var firsts := Firsts(ScoredPairs(list));
    if n in firsts {
      var i :| 0 <= i < |firsts| && firsts[i] == n;
      assert NameAndScore(list[i]).name == Some(n);
    }
    if exists i :: 0 <= i < |list| && NameAndScore(list[i]).name == Some(n) {
      var i :| 0 <= i < |list| && NameAndScore(list[i]).name == Some(n);
      assert firsts[i] == n;
    }
  }

  /** In scored mode a name repeated in the list keeps the score of its last
      entry (later hash assignments win). */
  lemma ScoredRequestScores(list: seq<string>)
    requires AllScored(list)
    ensures forall i :: 0 <= i < |list| && (forall j :: i < j < |list| ==> NameAndScore(list[j]).name != NameAndScore(list[i]).name) ==>
      NameAndScore(list[i]).name.value in ScoreTable(list) &&
      ScoreTable(list)[NameAndScore(list[i]).name.value] == NameAndScore(list[i]).score
  {
    var pairs := ScoredPairs(list);
    forall i | 0 <= i < |list| && (forall j :: i < j < |list| ==> NameAndScore(list[j]).name != NameAndScore(list[i]).name)
      ensures NameAndScore(list[i]).name.value in ScoreTable(list) &&
        ScoreTable(list)[NameAndScore(list[i]).name.value] == NameAndScore(list[i]).score
    {
      forall j | i < j < |pairs| ensures pairs[j].0 != pairs[i].0 {
        assert NameAndScore(list[j]).name != NameAndScore(list[i]).name;
      }
      HashOfLast(pairs, i);
    }
  }

  /** The entry for a name not repeated later is the one `Hash[pairs]` keeps. */
  lemma HashOfLast(pairs: seq<(string, nat)>, i: nat)
    requires i < |pairs|
    requires forall j :: i < j < |pairs| ==> pairs[j].0 != pairs[i].0
    ensures pairs[i].0 in HashOf(pairs) && HashOf(pairs)[pairs[i].0] == pairs[i].1
  {
    HashOfLastWins(pairs);
  }

  // ---------------------------------------------------------------------
  // Step 2: `Tag.named_any(list).all`

  /** The stored tags matching some requested name, in table order. */
  function MatchingTags(strict: bool, store: seq<Tag>, names: seq<string>): seq<Tag> {
    Filter(store, t => NamedAny(strict, names, t))
  }

  /** The lookup returns exactly the stored tags that `named_any` selects. */
  lemma MatchingTagsMembers(strict: bool, store: seq<Tag>, names: seq<string>)
    ensures forall t :: t in MatchingTags(strict, store, names) <==> t in store && NamedAny(strict, names, t)
    ensures |MatchingTags(strict, store, names)| <= |store|
  {
    FilterMembers(store, t => NamedAny(strict, names, t));
    FilterLength(store, t => NamedAny(strict, names, t));
  }

  // ---------------------------------------------------------------------
  // Step 3: `list.reject { |name| existing_tags.any? { ... } }`

  /** Some existing tag has the same `comparable_name` (downcased form). */
  predicate MatchesExisting(existing: seq<Tag>, name: string) {
    exists i :: 0 <= i < |existing| && ComparableName(existing[i].name) == ComparableName(name)
  }

  /** The requested names no existing tag matches after downcasing. */
  function NewTagNames(existing: seq<Tag>, names: seq<string>): seq<string> {
    Filter(names, n => !MatchesExisting(existing, n))
  }

  /** A name is new exactly when it was requested and its downcased form is
      that of no existing tag; every copy of a new name is kept (duplicates
      are not collapsed) and the input order is kept. */
  lemma NewTagNamesMeaning(existing: seq<Tag>, names: seq<string>, more: seq<string>, n: string)
    ensures n in NewTagNames(existing, names) <==> n in names && !MatchesExisting(existing, n)
    ensures multiset(NewTagNames(existing, names))[n] ==
      if MatchesExisting(existing, n) then 0 else multiset(names)[n]
    ensures NewTagNames(existing, names + more) == NewTagNames(existing, names) + NewTagNames(existing, more)
  {
    var p := n => !MatchesExisting(existing, n);
    FilterMembers(names, p);
    FilterCount(names, p, n);
    FilterAppend(names, more, p);
  }

  // ---------------------------------------------------------------------
  // Step 4: `new_tag_names.map { |name| Tag.create(:name => name) }`

  /** Creating each name in turn, on the table left by the previous one. */
  function CreateEach(store: seq<Tag>, names: seq<string>): (r: Resolution)
    ensures |r.tags| == |names|
    ensures |store| <= |r.store| <= |store| + |names| && r.store[..|store|] == store
    decreases |names|
  {
    if names == [] then Resolution([], store)
    else
      var prev := CreateEach(store, names[..|names| - 1]);
      var t := NewRecord(prev.store, names[|names| - 1]);
      assert (prev.store + [t])[..|store|] == prev.store[..|store|];
      Resolution(prev.tags + [t], AfterCreate(prev.store, t))
  }

  /** The table stays valid and grows only by the records saved; the stored
      names are the old ones and the valid requested ones. */
  lemma {:induction false} CreateEachStore(store: seq<Tag>, names: seq<string>)
    requires StoreValid(store)
    ensures StoreValid(CreateEach(store, names).store)
    ensures forall n :: StoresName(CreateEach(store, names).store, n) <==>
      StoresName(store, n) || (ValidName(n) && n in names)
    ensures forall t :: t in CreateEach(store, names).store[|store|..] <==>
      t in CreateEach(store, names).tags && t.Persisted()
    decreases |names|
  {
    if names != [] {
      var names', x := names[..|names| - 1], names[|names| - 1];
      assert names == names' + [x];
      CreateEachStore(store, names');
      var prev := CreateEach(store, names');
      var t := NewRecord(prev.store, x);
      assert CreateEach(store, names) == Resolution(prev.tags + [t], AfterCreate(prev.store, t));
      CreateKeepsStoreValid(prev.store, x);
      if CanCreate(prev.store, x) {
        CreateStepSaved(store, prev.store, prev.tags, x);
      } else {
        CreateStepUnsaved(prev.store, x);
      }
    }
  }

  /** One saved `create`: the row is appended, its name becomes stored, and
      it is the one new row and the one new saved record. */
  lemma CreateStepSaved(store: seq<Tag>, prev: seq<Tag>, tags: seq<Tag>, x: string)
    requires CanCreate(prev, x)
    requires |store| <= |prev| && prev[..|store|] == store
    ensures var t := NewRecord(prev, x);
      && AfterCreate(prev, t) == prev + [t]
      && (forall n :: StoresName(prev + [t], n) <==> StoresName(prev, n) || n == x)
      && (forall u :: u in (prev + [t])[|store|..] <==> u in prev[|store|..] || u == t)
      && (forall u :: u in tags + [t] && u.Persisted() <==> (u in tags && u.Persisted()) || u == t)
  {
    var t := NewRecord(prev, x);
    assert t.Persisted();
    assert (prev + [t])[|store|..] == prev[|store|..] + [t];
    forall n ensures StoresName(prev + [t], n) <==> StoresName(prev, n) || n == x {
      if StoresName(prev + [t], n) && n != x {
        var i :| 0 <= i < |prev + [t]| && (prev + [t])[i].name == n;
        assert prev[i].name == n;
      }
      if StoresName(prev, n) {
        var i :| 0 <= i < |prev| && prev[i].name == n;
        assert (prev + [t])[i].name == n;
      }
      assert (prev + [t])[|prev|].name == x;
    }
  }

  /** One unsaved `create`: the table is unchanged, and the name was either
      invalid or already stored. */
  lemma CreateStepUnsaved(prev: seq<Tag>, x: string)
    requires !CanCreate(prev, x)
    ensures var t := NewRecord(prev, x);
      && !t.Persisted() && AfterCreate(prev, t) == prev
      && (ValidName(x) ==> StoresName(prev, x))
  {
  }

  /** The k-th created record has the k-th new name and no score; it is saved
      exactly when its name is valid, not already stored and not requested
      earlier in the same batch. */
  lemma {:induction false} CreateEachTags(store: seq<Tag>, names: seq<string>)
    requires StoreValid(store)
    ensures forall k :: 0 <= k < |names| ==>
      CreateEach(store, names).tags[k].name == names[k] &&
      CreateEach(store, names).tags[k].score.None? &&
      CreateEach(store, names).tags[k].countAttr.None?
    ensures forall k :: 0 <= k < |names| ==>
      (CreateEach(store, names).tags[k].Persisted() <==> SavedInBatch(store, names, k))
    decreases |names|
  {
    if names != [] {
      var names', x := names[..|names| - 1], names[|names| - 1];
      CreateEachTags(store, names');
      CreateEachStore(store, names');
      var prev := CreateEach(store, names');
      var r := CreateEach(store, names);
      assert r.tags == prev.tags + [NewRecord(prev.store, x)];
      forall k | 0 <= k < |names'| ensures SavedInBatch(store, names, k) == SavedInBatch(store, names', k) {
        assert names[..k] == names'[..k];
      }
      assert names[..|names'|] == names';
    }
  }

  /** Whether `create` saves the k-th of a batch of names: the name is
      valid, not stored beforehand, and not requested earlier in the batch. */
  predicate SavedInBatch(store: seq<Tag>, names: seq<string>, k: nat)
    requires k < |names|
  {
    ValidName(names[k]) && !StoresName(store, names[k]) && names[k] !in names[..k]
  }

  // ---------------------------------------------------------------------
  // Step 6: `ret.each { |tag| tag.score = scores[tag.name] }`

  /** `scores[name]`: `nil` for a missing key. */
  function Lookup(scores: map<string, nat>, name: string): Option<nat> {
    if name in scores then Some(scores[name]) else None
  }

  function WithScores(tags: seq<Tag>, scores: map<string, nat>): (r: seq<Tag>)
    ensures |r| == |tags|
    decreases |tags|
  {
    if tags == [] then []
    else
      var t := tags[|tags| - 1];
      WithScores(tags[..|tags| - 1], scores) + [t.(score := Lookup(scores, t.name))]
  }

  /** Every tag keeps everything but its score, which becomes the score
      recorded under its exact name (or `nil`). */
  lemma {:induction false} WithScoresAt(tags: seq<Tag>, scores: map<string, nat>)
    ensures forall k :: 0 <= k < |tags| ==>
      WithScores(tags, scores)[k] == tags[k].(score := Lookup(scores, tags[k].name))
    decreases |tags|
  {
    if tags != [] {
      WithScoresAt(tags[..|tags| - 1], scores);
    }
  }

  // ---------------------------------------------------------------------
  // find_or_create_all_with_like_by_name

  /** The whole batch: lookup, creation of the rest, `existing + created`,
      then the scores. An empty list returns `[]` before any step. */
  function Resolve(strict: bool, store: seq<Tag>, scored: bool, list: seq<string>): (r: Resolution)
    requires scored ==> AllScored(list)
    ensures list != [] ==> r.tags != []
    ensures |store| <= |r.store| <= |store| + |list| && r.store[..|store|] == store
  {
    if list == [] then Resolution([], store)
    else
      var names := RequestedNames(scored, list);
      var existing := MatchingTags(strict, store, names);
      RequestSizes(strict, store, scored, list);
      var created := CreateEach(store, NewTagNames(existing, names));
      var ret := existing + created.tags;
      Resolution(if scored then WithScores(ret, ScoreTable(list)) else ret, created.store)
  }

  /** An empty list returns no tags and leaves the table as it was. */
  lemma ResolveEmpty(strict: bool, store: seq<Tag>, scored: bool)
    ensures Resolve(strict, store, scored, []) == Resolution([], store)
  {
  }

  /** A non-empty list asks for at least one name, and either the lookup
      finds a row or some name is new; there are never more new names than
      entries. */
  lemma RequestSizes(strict: bool, store: seq<Tag>, scored: bool, list: seq<string>)
    requires scored ==> AllScored(list)
    requires list != []
    ensures var names := RequestedNames(scored, list);
      var existing := MatchingTags(strict, store, names);
      && 0 < |existing| + |NewTagNames(existing, names)|
      && |NewTagNames(existing, names)| <= |list|
  {
    var names := RequestedNames(scored, list);
    if scored {
      UniqMembers(Firsts(ScoredPairs(list)));
      assert Firsts(ScoredPairs(list))[0] in names;
    }
    assert names != [];
    var existing := MatchingTags(strict, store, names);
    FilterLength(names, n => !MatchesExisting(existing, n));
    if existing == [] {
      NewTagNamesMeaning(existing, names, [], names[0]);
      assert names[0] in NewTagNames(existing, names);
    }
  }

  /** The stored record a returned tag came from, ignoring its score. */
  function Unscored(t: Tag): Tag { t.(score := None) }

  /** The result starts with exactly the stored tags matching some requested
      name (exact match when strict, lower-case match when loose), in table
      order, and has one more tag per new name. */
  lemma ResolveExisting(strict: bool, store: seq<Tag>, scored: bool, list: seq<string>)
    requires StoreValid(store)
    requires scored ==> AllScored(list)
    requires list != []
    ensures var r := Resolve(strict, store, scored, list);
      var names := RequestedNames(scored, list);
      var existing := MatchingTags(strict, store, names);
      && |r.tags| == |existing| + |NewTagNames(existing, names)|
      && (forall t :: t in existing <==> t in store && NamedAny(strict, names, t))
      && (forall k :: 0 <= k < |existing| ==> Unscored(r.tags[k]) == existing[k])
  {
    var names := RequestedNames(scored, list);
    var existing := MatchingTags(strict, store, names);
    var created := CreateEach(store, NewTagNames(existing, names)).tags;
    ResolveKeepsRecords(strict, store, scored, list);
    MatchingTagsMembers(strict, store, names);
    MatchingTagsUnscored(strict, store, names);
    PartsOfResult(Resolve(strict, store, scored, list).tags, existing, created);
  }

  /** After the existing tags come the created records, one per new name in
      input order; each is saved exactly when its name is valid, not stored
      and not requested earlier in the batch. */
  lemma ResolveCreated(strict: bool, store: seq<Tag>, scored: bool, list: seq<string>)
    requires StoreValid(store)
    requires scored ==> AllScored(list)
    requires list != []
    ensures var names := RequestedNames(scored, list);
      var existing := MatchingTags(strict, store, names);
      CreatedAfter(Resolve(strict, store, scored, list).tags, |existing|, store, NewTagNames(existing, names))
  {
    var names := RequestedNames(scored, list);
    var existing := MatchingTags(strict, store, names);
    var newNames := NewTagNames(existing, names);
    var created := CreateEach(store, newNames).tags;
    ResolveKeepsRecords(strict, store, scored, list);
    CreateEachTags(store, newNames);
    CreatedFromParts(Resolve(strict, store, scored, list).tags, existing, created, store, newNames);
  }

  /** From position `skip` on, `tags` holds one record per name of the batch
      `newNames`, in order, saved exactly as `create` saves them. */
  predicate CreatedAfter(tags: seq<Tag>, skip: nat, store: seq<Tag>, newNames: seq<string>) {
    && |tags| == skip + |newNames|
    && forall k :: 0 <= k < |newNames| ==>
         tags[skip + k].name == newNames[k] &&
         (tags[skip + k].Persisted() <==> SavedInBatch(store, newNames, k))
  }

  /** Tags that agree, apart from scores, with `existing + created`, where
      `created` are the records of the batch `newNames`, hold that batch
      after the first `|existing|`. */
  lemma CreatedFromParts(tags: seq<Tag>, existing: seq<Tag>, created: seq<Tag>, store: seq<Tag>, newNames: seq<string>)
    requires |tags| == |existing + created|
    requires forall k :: 0 <= k < |existing + created| ==> Unscored(tags[k]) == Unscored((existing + created)[k])
    requires |created| == |newNames|
    requires forall k :: 0 <= k < |newNames| ==>
      created[k].name == newNames[k] && created[k].score.None? && created[k].countAttr.None?
    requires forall k :: 0 <= k < |newNames| ==> (created[k].Persisted() <==> SavedInBatch(store, newNames, k))
    ensures CreatedAfter(tags, |existing|, store, newNames)
  {
    PartsCreated(tags, existing, created);
  }

  /** Tags that agree, apart from scores, with `existing + created` have
      `existing` (unscored) in front, position by position. */
  lemma PartsOfResult(tags: seq<Tag>, existing: seq<Tag>, created: seq<Tag>)
    requires |tags| == |existing + created|
    requires forall k :: 0 <= k < |existing + created| ==> Unscored(tags[k]) == Unscored((existing + created)[k])
    requires forall k :: 0 <= k < |existing| ==> existing[k].score.None?
    ensures forall k :: 0 <= k < |existing| ==> Unscored(tags[k]) == existing[k]
  {
    var ret := existing + created;
    forall k | 0 <= k < |existing| ensures Unscored(tags[k]) == existing[k] {
      assert ret[k] == existing[k];
    }
  }

  /** Tags that agree, apart from scores, with `existing + created` carry
      the names and ids of `created` after the first `|existing|`. */
  lemma PartsCreated(tags: seq<Tag>, existing: seq<Tag>, created: seq<Tag>)
    requires |tags| == |existing + created|
    requires forall k :: 0 <= k < |existing + created| ==> Unscored(tags[k]) == Unscored((existing + created)[k])
    ensures forall k :: 0 <= k < |created| ==>
      tags[|existing| + k].name == created[k].name && tags[|existing| + k].id == created[k].id
  {
    var ret := existing + created;
    forall k | 0 <= k < |created|
      ensures tags[|existing| + k].name == created[k].name && tags[|existing| + k].id == created[k].id
    {
      assert ret[|existing| + k] == created[k];
      assert Unscored(tags[|existing| + k]) == Unscored(created[k]);
    }
  }

  /** Apart from the scores, the result is the lookup's rows followed by the
      created records. */
  lemma ResolveKeepsRecords(strict: bool, store: seq<Tag>, scored: bool, list: seq<string>)
    requires scored ==> AllScored(list)
    requires list != []
    ensures var names := RequestedNames(scored, list);
      var existing := MatchingTags(strict, store, names);
      var ret := existing + CreateEach(store, NewTagNames(existing, names)).tags;
      var r := Resolve(strict, store, scored, list);
      |r.tags| == |ret| && forall k :: 0 <= k < |ret| ==> Unscored(r.tags[k]) == Unscored(ret[k])
  {
    if scored {
      var names := RequestedNames(scored, list);
      var existing := MatchingTags(strict, store, names);
      var ret := existing + CreateEach(store, NewTagNames(existing, names)).tags;
      WithScoresAt(ret, ScoreTable(list));
    }
  }

  /** The table only grows: old rows are untouched, it stays valid, and a
      name is stored afterwards exactly when it was stored before or is a
      valid new name of this batch. */
  lemma ResolveStore(strict: bool, store: seq<Tag>, scored: bool, list: seq<string>)
    requires StoreValid(store)
    requires scored ==> AllScored(list)
    ensures var r := Resolve(strict, store, scored, list);
      var newNames := NewTagNames(MatchingTags(strict, store, RequestedNames(scored, list)), RequestedNames(scored, list));
      && StoreValid(r.store)
      && (forall n :: StoresName(r.store, n) <==> StoresName(store, n) || (list != [] && ValidName(n) && n in newNames))
  {
    if list != [] {
      var names := RequestedNames(scored, list);
      CreateEachStore(store, NewTagNames(MatchingTags(strict, store, names), names));
    }
  }

  /** The tags a lookup returns carry no score yet. */
  lemma MatchingTagsUnscored(strict: bool, store: seq<Tag>, names: seq<string>)
    requires StoreValid(store)
    ensures forall k :: 0 <= k < |MatchingTags(strict, store, names)| ==> MatchingTags(strict, store, names)[k].score.None?
  {
    MatchingTagsMembers(strict, store, names);
    var existing := MatchingTags(strict, store, names);
    forall k | 0 <= k < |existing| ensures existing[k].score.None? {
      assert existing[k] in store;
    }
  }

  /** Two lists of unscored tags concatenate to one. */
  lemma ConcatUnscored(a: seq<Tag>, b: seq<Tag>)
    requires forall k :: 0 <= k < |a| ==> a[k].score.None?
    requires forall k :: 0 <= k < |b| ==> b[k].score.None?
    ensures forall k :: 0 <= k < |a + b| ==> (a + b)[k].score.None?
  {
    forall k | 0 <= k < |a + b| ensures (a + b)[k].score.None? {
      if k >= |a| {
        assert (a + b)[k] == b[k - |a|];
      }
    }
  }

  /** Without scores every returned tag has score `nil`; with scores each
      gets the score recorded under its exact name, so an existing tag found
      under a different case gets `nil`. */
  lemma ResolveScores(strict: bool, store: seq<Tag>, scored: bool, list: seq<string>)
    requires StoreValid(store)
    requires scored ==> AllScored(list)
    ensures var r := Resolve(strict, store, scored, list);
      forall k :: 0 <= k < |r.tags| ==>
        r.tags[k].score == if scored then Lookup(ScoreTable(list), r.tags[k].name) else None
  {
    if list != [] {
      var names := RequestedNames(scored, list);
      var existing := MatchingTags(strict, store, names);
      var newNames := NewTagNames(existing, names);
      var created := CreateEach(store, newNames).tags;
      var ret := existing + created;
      if scored {
        assert Resolve(strict, store, scored, list).tags == WithScores(ret, ScoreTable(list));
        WithScoresAt(ret, ScoreTable(list));
      } else {
        assert Resolve(strict, store, scored, list).tags == ret;
        MatchingTagsUnscored(strict, store, names);
        CreateEachTags(store, newNames);
        ConcatUnscored(existing, created);
      }
    }
  }

  /** A loose lookup finds, for each requested name, every stored tag with
      the same downcased name. */
  lemma LooseMatchesExisting(store: seq<Tag>, names: seq<string>, n: string)
    requires n in names
    ensures MatchesExisting(MatchingTags(false, store, names), n) <==>
      exists i :: 0 <= i < |store| && Downcase(store[i].name) == Downcase(n)
  {
    if exists i :: 0 <= i < |store| && Downcase(store[i].name) == Downcase(n) {
      var i :| 0 <= i < |store| && Downcase(store[i].name) == Downcase(n);
      LooseFound(store, names, n, i);
    }
    if MatchesExisting(MatchingTags(false, store, names), n) {
      LooseFoundStored(store, names, n);
    }
  }

  /** A stored row equal to a requested name up to case is found by the loose
      lookup, so that name matches an existing tag. */
  lemma LooseFound(store: seq<Tag>, names: seq<string>, n: string, i: nat)
    requires n in names
    requires i < |store| && Downcase(store[i].name) == Downcase(n)
    ensures MatchesExisting(MatchingTags(false, store, names), n)
  {
    var existing := MatchingTags(false, store, names);
    var j :| 0 <= j < |names| && names[j] == n;
    assert Named(false, names[j], store[i]);
    NamedAnyIsOr(false, names, store[i]);
    MatchingTagsMembers(false, store, names);
    assert store[i] in existing;
    var k :| 0 <= k < |existing| && existing[k] == store[i];
    assert ComparableName(existing[k].name) == ComparableName(n);
  }

  /** A name matching an existing tag of the loose lookup equals some stored
      name up to case. */
  lemma LooseFoundStored(store: seq<Tag>, names: seq<string>, n: string)
    requires MatchesExisting(MatchingTags(false, store, names), n)
    ensures exists i :: 0 <= i < |store| && Downcase(store[i].name) == Downcase(n)
  {
    var existing := MatchingTags(false, store, names);
    var k :| 0 <= k < |existing| && ComparableName(existing[k].name) == ComparableName(n);
    var x := existing[k];
    FoundIsStored(store, t => NamedAny(false, names, t), x);
    var i :| 0 <= i < |store| && store[i] == x;
    assert Downcase(store[i].name) == Downcase(n);
  }

  /** A row some lookup returned is a stored row. */
  lemma FoundIsStored(store: seq<Tag>, p: Tag -> bool, x: Tag)
    requires x in Filter(store, p)
    ensures exists i :: 0 <= i < |store| && store[i] == x
  {
    FilterMembers(store, p);
  }

  /** Under the loose policy a requested name is created exactly when no
      stored tag has its downcased form. */
  lemma LooseNewNames(store: seq<Tag>, names: seq<string>, n: string)
    ensures var newNames := NewTagNames(MatchingTags(false, store, names), names);
      n in newNames <==> n in names && forall i :: 0 <= i < |store| ==> Downcase(store[i].name) != Downcase(n)
  {
    NewTagNamesMeaning(MatchingTags(false, store, names), names, [], n);
    if n in names {
      LooseMatchesExisting(store, names, n);
    }
  }

  /** Under the loose policy a batch whose every name is already stored up to
      case creates nothing. */
  lemma LooseReusesStored(store: seq<Tag>, list: seq<string>)
    requires forall j :: 0 <= j < |list| ==> exists i :: 0 <= i < |store| && Downcase(store[i].name) == Downcase(list[j])
    ensures Resolve(false, store, false, list).store == store
  {
    if list != [] {
      var keep := n => !MatchesExisting(MatchingTags(false, store, list), n);
      forall j | 0 <= j < |list| ensures !keep(list[j]) {
        LooseMatchesExisting(store, list, list[j]);
      }
      FilterNone(list, keep);
      assert NewTagNames(MatchingTags(false, store, list), list) == [];
    }
  }

  /** A strict lookup of `[a, b]` where only `a` is stored finds that one row. */
  lemma StrictLookupOfStored(store: seq<Tag>, a: string, b: string, i: nat)
    requires StoreValid(store)
    requires i < |store| && store[i].name == a && !StoresName(store, b)
    ensures MatchingTags(true, store, [a, b]) == [store[i]]
  {
    var names := [a, b];
    forall j | 0 <= j < |store| ensures NamedAny(true, names, store[j]) <==> j == i {
      NamedAnyIsOr(true, names, store[j]);
      assert Named(true, names[0], store[i]);
    }
    FilterSingle(store, t => NamedAny(true, names, t), i);
  }

  /** The comparison against existing tags downcases even under the strict
      policy: when `a` is stored and `b` differs from it only in case,
      resolving `[a, b]` strictly returns just the stored `a` and never
      creates `b`. */
  lemma StrictDropsCaseVariant(store: seq<Tag>, a: string, b: string)
    requires StoreValid(store)
    requires StoresName(store, a) && !StoresName(store, b)
    requires Downcase(a) == Downcase(b)
    ensures Resolve(true, store, false, [a, b]).store == store
    ensures |Resolve(true, store, false, [a, b]).tags| == 1
    ensures Resolve(true, store, false, [a, b]).tags[0].name == a
  {
    var i :| 0 <= i < |store| && store[i].name == a;
    StrictLookupOfStored(store, a, b, i);
    CaseVariantsMatch(store[i], a, b);
    ResolveNothingNew(true, store, [a, b]);
  }

  /** Both `a` and its case variant `b` match a found row named `a`, so
      neither is new. */
  lemma CaseVariantsMatch(x: Tag, a: string, b: string)
    requires x.name == a && Downcase(a) == Downcase(b)
    ensures NewTagNames([x], [a, b]) == []
  {
    MatchesOnly(x, a);
    MatchesOnly(x, b);
    var names := [a, b];
    forall k | 0 <= k < |names| ensures MatchesExisting([x], names[k]) {
      if k == 0 {
        assert names[k] == a;
      } else {
        assert names[k] == b;
      }
    }
    NoNewTagNames([x], names);
  }

  /** A name matches a one-row lookup when it equals that row's name up to case. */
  lemma MatchesOnly(x: Tag, n: string)
    requires Downcase(x.name) == Downcase(n)
    ensures MatchesExisting([x], n)
  {
    assert [x][0] == x;
    assert ComparableName([x][0].name) == ComparableName(n);
  }

  /** When every requested name matches an existing tag, none is new. */
  lemma NoNewTagNames(existing: seq<Tag>, names: seq<string>)
    requires forall i :: 0 <= i < |names| ==> MatchesExisting(existing, names[i])
    ensures NewTagNames(existing, names) == []
  {
    FilterNone(names, n => !MatchesExisting(existing, n));
  }

  /** An unscored batch all of whose names match the lookup returns the
      lookup's rows and leaves the table as it was. */
  lemma ResolveNothingNew(strict: bool, store: seq<Tag>, names: seq<string>)
    requires names != []
    requires NewTagNames(MatchingTags(strict, store, names), names) == []
    ensures Resolve(strict, store, false, names) == Resolution(MatchingTags(strict, store, names), store)
  {
    assert CreateEach(store, []) == Resolution([], store);
    assert MatchingTags(strict, store, names) + [] == MatchingTags(strict, store, names);
  }

  /** Unscored duplicates of a new name are not collapsed: resolving
      `[a, a]` with nothing like `a` stored calls `create` twice, so the
      first record is saved and the second, failing the uniqueness
      validation, is returned unsaved; the table gains one row. */
  lemma DuplicateNewNameCreatedTwice(strict: bool, store: seq<Tag>, a: string)
    requires StoreValid(store) && ValidName(a)
    requires forall i :: 0 <= i < |store| ==> Downcase(store[i].name) != Downcase(a)
    ensures var r := Resolve(strict, store, false, [a, a]);
      && |r.tags| == 2 && r.tags[0].name == a && r.tags[1].name == a
      && r.tags[0].Persisted() && !r.tags[1].Persisted()
      && r.store == store + [r.tags[0]]
  {
    var names := [a, a];
    NoLookupMatch(strict, store, names, a);
    var existing := MatchingTags(strict, store, names);
    FilterLength(names, n => !MatchesExisting(existing, n));
    assert NewTagNames(existing, names) == names;
    assert !StoresName(store, a) by {
      forall i | 0 <= i < |store| ensures store[i].name != a {
      }
    }
    CreateTwice(store, a);
  }

  /** A lookup of copies of `a` finds nothing when no stored name equals
      `a` up to case. */
  lemma NoLookupMatch(strict: bool, store: seq<Tag>, names: seq<string>, a: string)
    requires forall k :: 0 <= k < |names| ==> names[k] == a
    requires forall i :: 0 <= i < |store| ==> Downcase(store[i].name) != Downcase(a)
    ensures MatchingTags(strict, store, names) == []
  {
    var p := t => NamedAny(strict, names, t);
    forall i | 0 <= i < |store| ensures !p(store[i]) {
      NamedAnyIsOr(strict, names, store[i]);
    }
    FilterNone(store, p);
  }

  /** Creating a new valid name twice saves the first record only. */
  lemma CreateTwice(store: seq<Tag>, a: string)
    requires StoreValid(store) && ValidName(a) && !StoresName(store, a)
    ensures var t := NewRecord(store, a);
      && t.Persisted() && !NewRecord(store + [t], a).Persisted()
      && CreateEach(store, [a, a]) == Resolution([t, NewRecord(store + [t], a)], store + [t])
  {
    var t := NewRecord(store, a);
    assert [a, a][..1] == [a];
    assert [a][..0] == [];
    assert CreateEach(store, [a]) == Resolution([t], store + [t]);
    assert (store + [t])[|store|].name == a;
  }

  // ---------------------------------------------------------------------
  // find_or_create_with_like_by_name

  /** The rows `named_like(name)` selects, in table order. */
  function LikeMatches(like: LikeMatch, store: seq<Tag>, name: string): (r: seq<Tag>)
    ensures forall t :: t in r <==> t in store && like(t.name, name)
    ensures |r| <= |store|
  {
    FilterMembers(store, t => NamedLike(like, name, t));
    FilterLength(store, t => NamedLike(like, name, t));
    Filter(store, t => NamedLike(like, name, t))
  }

  /** One name: under the strict policy the first tag of the batch path on
      `[name]`; under the loose policy the first `LIKE` match or else a newly
      created record, carrying the score `split_if_scored` gave. */
  function ResolveOne(strict: bool, like: LikeMatch, store: seq<Tag>, scored: bool, name: string): (f: Found)
    requires scored ==> ScoredEntry(name)
    ensures |store| <= |f.store| <= |store| + 1 && f.store[..|store|] == store
  {
    if strict then
      SingleScored(scored, name);
      var r := Resolve(true, store, scored, [name]);
      Found(r.tags[0], r.store)
    else
      var split := SplitIfScored(name, scored);
      var n := split.name.value;
      var matches := LikeMatches(like, store, n);
      if matches != [] then Found(matches[0].(score := split.score), store)
      else
        var t := NewRecord(store, n);
        AfterCreateGrows(store, t);
        Found(t.(score := split.score), AfterCreate(store, t))
  }

  /** A one-entry list is scored when its entry is. */
  lemma SingleScored(scored: bool, name: string)
    requires scored ==> ScoredEntry(name)
    ensures scored ==> AllScored([name])
  {
  }

  /** A `create` appends at most one row and keeps the old ones. */
  lemma AfterCreateGrows(store: seq<Tag>, t: Tag)
    ensures |store| <= |AfterCreate(store, t)| <= |store| + 1
    ensures AfterCreate(store, t)[..|store|] == store
  {
    assert (store + [t])[..|store|] == store;
  }

  /** Strict and unscored, one name is looked up exactly: a stored row with
      that very name is returned and nothing is created; otherwise a record
      with that name is created, saved exactly when the name is valid. */
  lemma StrictOneFindsOrCreates(like: LikeMatch, store: seq<Tag>, name: string)
    requires StoreValid(store)
    ensures var f := ResolveOne(true, like, store, false, name);
      && f.tag.name == name && f.tag.score.None?
      && (StoresName(store, name) ==> f.store == store && f.tag in store)
      && (!StoresName(store, name) ==>
            f.tag == NewRecord(store, name) && f.store == AfterCreate(store, f.tag) &&
            (f.tag.Persisted() <==> ValidName(name)))
  {
    var r := Resolve(true, store, false, [name]);
    assert ResolveOne(true, like, store, false, name) == Found(r.tags[0], r.store);
    if StoresName(store, name) {
      StrictOneStored(store, name);
    } else {
      StrictOneNew(store, name);
    }
  }

  /** With the name stored, the strict batch on `[name]` returns that row
      alone and creates nothing. */
  lemma StrictOneStored(store: seq<Tag>, name: string)
    requires StoreValid(store)
    requires StoresName(store, name)
    ensures var r := Resolve(true, store, false, [name]);
      r.store == store && |r.tags| == 1 && r.tags[0] in store && r.tags[0].name == name && r.tags[0].score.None?
  {
    StrictSingleMatches(store, name);
    var i :| 0 <= i < |store| && store[i].name == name && MatchingTags(true, store, [name]) == [store[i]];
    StrictOneFound(store, name, store[i]);
  }

  /** When the strict lookup of `[name]` finds one row of that name, the
      batch returns that row alone and creates nothing. */
  lemma StrictOneFound(store: seq<Tag>, name: string, x: Tag)
    requires x.name == name && MatchingTags(true, store, [name]) == [x]
    ensures Resolve(true, store, false, [name]) == Resolution([x], store)
  {
    var existing, names := [x], [name];
    MatchesOnly(x, name);
    forall k | 0 <= k < |names| ensures MatchesExisting(existing, names[k]) {
      assert names[k] == name;
    }
    NoNewTagNames(existing, names);
    ResolveNothingNew(true, store, names);
  }

  /** With the name not stored, the strict batch on `[name]` returns the
      record `Tag.create` gives for it. */
  lemma StrictOneNew(store: seq<Tag>, name: string)
    requires StoreValid(store)
    requires !StoresName(store, name)
    ensures Resolve(true, store, false, [name]) ==
      Resolution([NewRecord(store, name)], AfterCreate(store, NewRecord(store, name)))
  {
    var names := [name];
    var existing := MatchingTags(true, store, names);
    StrictSingleMatches(store, name);
    assert !MatchesExisting(existing, name);
    FilterLength(names, n => !MatchesExisting(existing, n));
    assert NewTagNames(existing, names) == names;
    assert names[..0] == [];
    assert CreateEach(store, names) == Resolution([NewRecord(store, name)], AfterCreate(store, NewRecord(store, name)));
  }

  /** `named_any` of a single name is `named` of that name. */
  lemma NamedAnySingle(strict: bool, name: string, t: Tag)
    ensures NamedAny(strict, [name], t) <==> Named(strict, name, t)
  {
    assert [name][1..] == [];
  }

  /** A strict lookup of one name finds the one row with that exact name, or none. */
  lemma StrictSingleMatches(store: seq<Tag>, name: string)
    requires StoreValid(store)
    ensures StoresName(store, name) ==>
      exists i :: 0 <= i < |store| && store[i].name == name && MatchingTags(true, store, [name]) == [store[i]]
    ensures !StoresName(store, name) ==> MatchingTags(true, store, [name]) == []
  {
    var p := t => NamedAny(true, [name], t);
    if StoresName(store, name) {
      var i :| 0 <= i < |store| && store[i].name == name;
      forall j | 0 <= j < |store| ensures p(store[j]) <==> j == i {
        NamedAnySingle(true, name, store[j]);
      }
      FilterSingle(store, p, i);
    } else {
      forall j | 0 <= j < |store| ensures !p(store[j]) {
        NamedAnySingle(true, name, store[j]);
      }
      FilterNone(store, p);
    }
  }

  /** Strict and unscored, resolving a valid name twice gives tags of that
      name and the second call creates no row. */
  lemma StrictOneIdempotent(like: LikeMatch, store: seq<Tag>, name: string)
    requires StoreValid(store)
    requires ValidName(name)
    ensures var f := ResolveOne(true, like, store, false, name);
      var g := ResolveOne(true, like, f.store, false, name);
      g.store == f.store && g.tag.name == f.tag.name == name
  {
    var f := ResolveOne(true, like, store, false, name);
    StrictOneFindsOrCreates(like, store, name);
    if !StoresName(store, name) {
      assert f.tag.Persisted();
      assert f.store == store + [f.tag];
      assert f.store[|store|].name == name;
      CreateKeepsStoreValid(store, name);
    }
    assert StoresName(f.store, name);
    StrictOneFindsOrCreates(like, f.store, name);
  }

  /** Under the strict policy, names that differ only in case are different
      tags: with `a` stored, resolving its case variant `b` creates it. */
  lemma StrictCaseVariantIsNew(like: LikeMatch, store: seq<Tag>, a: string, b: string)
    requires StoreValid(store)
    requires StoresName(store, a) && !StoresName(store, b) && ValidName(b)
    requires Downcase(a) == Downcase(b)
    ensures var f := ResolveOne(true, like, store, false, b);
      f.tag.Persisted() && f.tag.name == b && f.store == store + [f.tag]
  {
    StrictOneFindsOrCreates(like, store, b);
  }

  /** Under the loose policy the result is the first stored row whose name
      is `LIKE` the parsed name, with the parsed score; when no row is, it is
      the record `Tag.create` gives for the parsed name. */
  lemma LooseOneResult(like: LikeMatch, store: seq<Tag>, scored: bool, name: string)
    requires scored ==> ScoredEntry(name)
    ensures var f := ResolveOne(false, like, store, scored, name);
      var split := SplitIfScored(name, scored);
      var n := split.name.value;
      && f.tag.score == split.score
      && ((exists i :: 0 <= i < |store| && like(store[i].name, n)) ==>
            f.store == store &&
            exists i :: 0 <= i < |store| && like(store[i].name, n) &&
              (forall j :: 0 <= j < i ==> !like(store[j].name, n)) &&
              f.tag == store[i].(score := split.score))
      && ((forall i :: 0 <= i < |store| ==> !like(store[i].name, n)) ==>
            f.tag == NewRecord(store, n).(score := split.score) &&
            f.store == AfterCreate(store, NewRecord(store, n)))
  {
    var split := SplitIfScored(name, scored);
    var n := split.name.value;
    var matches := LikeMatches(like, store, n);
    if matches != [] {
      assert ResolveOne(false, like, store, scored, name) == Found(matches[0].(score := split.score), store);
      FirstLikeMatch(like, store, n);
    } else {
      assert ResolveOne(false, like, store, scored, name) ==
        Found(NewRecord(store, n).(score := split.score), AfterCreate(store, NewRecord(store, n)));
      forall i | 0 <= i < |store| ensures !like(store[i].name, n) {
        assert store[i] !in matches;
      }
    }
  }

  /** A non-empty `named_like` result starts with the first row in table
      order whose name is `LIKE` the pattern. */
  lemma FirstLikeMatch(like: LikeMatch, store: seq<Tag>, n: string)
    requires LikeMatches(like, store, n) != []
    ensures exists i ::
      && 0 <= i < |store| && like(store[i].name, n)
      && (forall j :: 0 <= j < i ==> !like(store[j].name, n))
      && LikeMatches(like, store, n)[0] == store[i]
  {
    FilterFirst(store, t => NamedLike(like, n, t));
  }

  /** Under the loose policy, when `LIKE` finds a valid name in itself,
      resolving it twice returns the same tag and the second call creates
      no row. */
  lemma LooseOneIdempotent(like: LikeMatch, store: seq<Tag>, name: string)
    requires StoreValid(store)
    requires ValidName(name) && like(name, name)
    ensures var f := ResolveOne(false, like, store, false, name);
      var g := ResolveOne(false, like, f.store, false, name);
      g.store == f.store && g.tag == f.tag
  {
    var p := t => NamedLike(like, name, t);
    var m := LikeMatches(like, store, name);
    if m == [] {
      var t := NewRecord(store, name);
      FilterMembers(store, p);
      forall i | 0 <= i < |store| ensures store[i].name != name {
        assert store[i] !in m;
      }
      assert t.Persisted();
      FilterSnoc(store, t, p);
      assert LikeMatches(like, store + [t], name) == [t];
    }
  }
}
