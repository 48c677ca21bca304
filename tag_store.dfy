/** The tags table as a mutable object. `Tag.create` appends to it, and the
    two find-or-create class methods run their steps against it; each method
    is proved to leave exactly the table, and return exactly the tags, that
    the specification functions of `TagResolution` describe. */
module TagStores {
  import opened Wrappers
  import opened Tags
  import opened TagResolution

  class TagStore {
    /** The rows of the tags table, in insertion order; row `i` has id `i`. */
    var rows: seq<Tag>
    /** `ActsAsTaggableOn.strict_case_match`, fixed for the store's life. */
    const strictCaseMatch: bool

    ghost predicate Valid()
      reads this
    {
      StoreValid(rows)
    }

    /** An empty table under the given case policy. */
    constructor (strictCaseMatch: bool)
      ensures Valid() && rows == [] && this.strictCaseMatch == strictCaseMatch
    {
      rows := [];
      this.strictCaseMatch := strictCaseMatch;
    }

    /** `Tag.create(:name => name)`: always returns a record; it is saved,
        and appended to the table, exactly when the name is present, at most
        255 characters long and not stored yet. */
    method Create(name: string) returns (t: Tag)
      requires Valid()
      modifies this
      ensures Valid()
      ensures t == NewRecord(old(rows), name)
      ensures t.name == name && t.score.None?
      ensures t.Persisted() <==> ValidName(name) && !StoresName(old(rows), name)
      ensures rows == if t.Persisted() then old(rows) + [t] else old(rows)
    {
      t := NewRecord(rows, name);
      CreateKeepsStoreValid(rows, name);
      rows := AfterCreate(rows, t);
    }

    /** `find_or_create_all_with_like_by_name(scored, *list)`, `list` already
        flattened: one lookup, one `create` per new name in input order, then
        the scores copied over by exact name. */
    method FindOrCreateAll(scored: bool, list: seq<string>) returns (tags: seq<Tag>)
      requires Valid()
      requires scored ==> AllScored(list)
      modifies this
      ensures Valid()
      ensures Resolution(tags, rows) == Resolve(strictCaseMatch, old(rows), scored, list)
    {
      if list == [] {
        return [];
      }
      var names := RequestedNames(scored, list);
      var existing := MatchingTags(strictCaseMatch, rows, names);
      var created := CreateAll(NewTagNames(existing, names));
      tags := existing + created;
      if scored {
        tags := AssignScores(tags, ScoreTable(list));
      }
    }

    /** `new_tag_names.map { |name| Tag.create(:name => name) }`. */
    method CreateAll(names: seq<string>) returns (created: seq<Tag>)
      requires Valid()
      modifies this
      ensures Valid()
      ensures Resolution(created, rows) == CreateEach(old(rows), names)
    {
      created := [];
      var i := 0;
      while i < |names|
        invariant 0 <= i <= |names|
        invariant Valid()
        invariant Resolution(created, rows) == CreateEach(old(rows), names[..i])
      {
        assert names[..i + 1][..i] == names[..i];
        var t := Create(names[i]);
        created := created + [t];
        i := i + 1;
      }
      assert names[..i] == names;
    }

    /** `find_or_create_with_like_by_name(name, scored)`: the batch path's
        first tag under the strict policy; otherwise the first `LIKE` match
        or a newly created record, given the parsed score. */
    method FindOrCreate(like: LikeMatch, scored: bool, name: string) returns (t: Tag)
      requires Valid()
      requires scored ==> ScoredEntry(name)
      modifies this
      ensures Valid()
      ensures Found(t, rows) == ResolveOne(strictCaseMatch, like, old(rows), scored, name)
    {
      if strictCaseMatch {
        assert scored ==> AllScored([name]);
        var tags := FindOrCreateAll(scored, [name]);
        t := tags[0];
      } else {
        var split := SplitIfScored(name, scored);
        var n := split.name.value;
        var matches := LikeMatches(like, rows, n);
        if matches != [] {
          t := matches[0];
        } else {
          t := Create(n);
        }
        t := t.(score := split.score);
      }
    }
  }

  /** `ret.each { |tag| tag.score = scores[tag.name] }`: every tag gets the
      score recorded under its exact name, or none. */
  method AssignScores(ret: seq<Tag>, scores: map<string, nat>) returns (tags: seq<Tag>)
    ensures |tags| == |ret|
    ensures forall k :: 0 <= k < |ret| ==>
      tags[k] == ret[k].(score := if ret[k].name in scores then Some(scores[ret[k].name]) else None)
    ensures tags == WithScores(ret, scores)
  {
    tags := [];
    var k := 0;
    while k < |ret|
      invariant 0 <= k <= |ret|
      invariant tags == WithScores(ret[..k], scores)
    {
      assert ret[..k + 1][..k] == ret[..k];
      tags := tags + [ret[k].(score := Lookup(scores, ret[k].name))];
      k := k + 1;
    }
    assert ret[..k] == ret;
    WithScoresAt(ret, scores);
  }
}
