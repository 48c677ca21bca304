/** The `Tag` record of acts-as-taggable-on and its pure class-level helpers:
    score-suffix parsing, the name filters behind the `named*` scopes,
    equality, the usage count and the record validations. */
module Tags {
  import opened Wrappers
  import opened Text

  /** `validates_length_of :name, :maximum => 255`. */
  const MaxNameLength: nat := 255

  /** One tag row as an in-memory record. `id` is present exactly when the
      record is persisted; `score` is the transient `attr_accessor :score`;
      `countAttr` is the `count` column a counting query may select. */
  datatype Tag = Tag(id: Option<nat>, name: string, score: Option<nat>, countAttr: Option<int>)
  {
    predicate Persisted() { id.Some? }
  }

  // ---------------------------------------------------------------------
  // name_and_score / split_if_scored

  /** `[$1, $2.to_i]` after matching `/^(.+):(\d+)$/`. */
  datatype NameScore = NameScore(name: Option<string>, score: nat)

  /** `[name, score]` as returned by `split_if_scored`. */
  datatype Split = Split(name: Option<string>, score: Option<nat>)

  /** The string is `name:digits` with a non-empty name and at least one
      digit: the whole-string match of `^(.+):(\d+)$` on a line. */
  predicate ScoredForm(s: string, name: string, digits: string) {
    s == name + ":" + digits && |name| >= 1 && |digits| >= 1 && AllDigits(digits)
  }

  /** Index of the last occurrence of `c` in `s`. */
  function LastIndexOf(s: string, c: char): (r: Option<nat>)
    ensures r.Some? ==> r.value < |s| && s[r.value] == c
    ensures forall j :: 0 <= j < |s| && s[j] == c ==> r.Some? && j <= r.value
    decreases |s|
  {
    if s == [] then None
    else if s[|s| - 1] == c then Some(|s| - 1)
    else LastIndexOf(s[..|s| - 1], c)
  }

  /** The greedy `.+` makes the split fall on the last colon, since the digits
      after it cannot contain one. */
  function NameAndScore(s: string): (r: NameScore)
    requires NoNewline(s)
    ensures r.name.None? ==> r.score == 0
    ensures r.name.Some? ==>
      |r.name.value| < |s| &&
      ScoredForm(s, r.name.value, s[|r.name.value| + 1..]) &&
      r.score == DigitsValue(s[|r.name.value| + 1..])
  {
    match LastIndexOf(s, ':')
    case None => NameScore(None, 0)
    case Some(i) =>
      if 1 <= i && i + 1 < |s| && AllDigits(s[i + 1..]) then
        assert s == s[..i] + ":" + s[i + 1..];
        NameScore(Some(s[..i]), DigitsValue(s[i + 1..]))
      else NameScore(None, 0)
  }

  /** The last occurrence of `c` in `u + [c] + t` is the one after `u` when
      `t` holds no `c`. */
  lemma {:induction false} LastIndexOfSuffix(u: string, c: char, t: string)
    requires c !in t
    ensures LastIndexOf(u + [c] + t, c) == Some(|u|)
    decreases |t|
  {
    if t == [] {
      LastIndexOfSnocHit(u, c);
      assert u + [c] + t == u + [c];
    } else {
      var t', y := t[..|t| - 1], t[|t| - 1];
      assert t == t' + [y];
      assert c !in t';
      LastIndexOfSuffix(u, c, t');
      LastIndexOfSnocMiss(u + [c] + t', y, c);
      assert u + [c] + t == (u + [c] + t') + [y];
    }
  }

  lemma LastIndexOfSnocHit(p: string, c: char)
    ensures LastIndexOf(p + [c], c) == Some(|p|)
  {
  }

  lemma LastIndexOfSnocMiss(p: string, y: char, c: char)
    requires y != c
    ensures LastIndexOf(p + [y], c) == LastIndexOf(p, c)
  {
    assert (p + [y])[..|p|] == p;
  }

  /** Every string of the form `name:digits` is split into exactly that name
      and the value of those digits. */
  lemma NameAndScoreOfScoredForm(s: string, name: string, digits: string)
    requires NoNewline(s)
    requires ScoredForm(s, name, digits)
    ensures NameAndScore(s) == NameScore(Some(name), DigitsValue(digits))
  {
    assert ':' !in digits by {
      forall i | 0 <= i < |digits| ensures digits[i] != ':' {
        assert IsDigit(digits[i]);
      }
    }
    LastIndexOfSuffix(name, ':', digits);
    assert s[..|name|] == name;
    assert s[|name| + 1..] == digits;
  }

  /** Entries of the form `name:digits` split at the last colon. */
  lemma NameAndScoreExamples()
    ensures NameAndScore("a:1:2") == NameScore(Some("a:1"), 2)
    ensures NameAndScore("focus:5") == NameScore(Some("focus"), 5)
  {
    assert ScoredForm("a:1:2", "a:1", "2");
    NameAndScoreOfScoredForm("a:1:2", "a:1", "2");
    assert ScoredForm("focus:5", "focus", "5");
    NameAndScoreOfScoredForm("focus:5", "focus", "5");
  }

  /** Entries without a non-empty name before the last colon, or without
      digits after it, give no name and score 0. */
  lemma NameAndScoreRejects()
    ensures NameAndScore("focus:abc") == NameScore(None, 0)
    ensures NameAndScore("focus") == NameScore(None, 0)
    ensures NameAndScore(":5") == NameScore(None, 0)
  {
    assert !IsDigit('a');
  }

  /** `scored ? name_and_score(str) : [str, nil]`. */
  function SplitIfScored(s: string, scored: bool): (r: Split)
    requires scored ==> NoNewline(s)
    ensures !scored ==> r == Split(Some(s), None)
    ensures scored ==> r.score.Some? && r.name == NameAndScore(s).name && r.score.value == NameAndScore(s).score
  {
    if scored then
      var ns := NameAndScore(s);
      Split(ns.name, Some(ns.score))
    else Split(Some(s), None)
  }

  /** In scored mode a `name:digits` entry yields that name and score. */
  lemma SplitIfScoredOfScoredForm(s: string, name: string, digits: string)
    requires NoNewline(s) && ScoredForm(s, name, digits)
    ensures SplitIfScored(s, true) == Split(Some(name), Some(DigitsValue(digits)))
  {
    NameAndScoreOfScoredForm(s, name, digits);
  }

  // ---------------------------------------------------------------------
  // Name filters (the `named`, `named_any` and `named_like` scopes)

  /** `comparable_name`: the downcased name, whatever the case policy. */
  function ComparableName(s: string): (r: string)
    ensures |r| == |s|
    ensures forall i :: 0 <= i < |s| ==> r[i] == Lower(s[i])
    ensures forall i :: 0 <= i < |r| ==> !IsUpper(r[i])
    ensures Downcase(r) == r
  {
    DowncaseIdempotent(s);
    Downcase(s)
  }

  /** The condition of `named(name)`: `name = ?` when case is strict,
      `lower(name) = ?` against the downcased name otherwise. */
  function Named(strict: bool, name: string, t: Tag): (r: bool)
    ensures r ==> Downcase(t.name) == Downcase(name)
    ensures t.name == name ==> r
  {
    if strict then t.name == name else Downcase(t.name) == Downcase(name)
  }

  /** The condition of `named_any(list)`: the `OR` of the per-name conditions. */
  function NamedAny(strict: bool, names: seq<string>, t: Tag): (r: bool)
    ensures r ==> exists i :: 0 <= i < |names| && Downcase(names[i]) == Downcase(t.name)
    ensures t.name in names ==> r
    decreases |names|
  {
    names != [] && (Named(strict, names[0], t) || NamedAny(strict, names[1..], t))
  }

  /** `named_any` holds exactly when `named` holds for some listed name. */
  lemma {:induction false} NamedAnyIsOr(strict: bool, names: seq<string>, t: Tag)
    ensures NamedAny(strict, names, t) <==> exists i :: 0 <= i < |names| && Named(strict, names[i], t)
    decreases |names|
  {
    if names != [] {
      NamedAnyIsOr(strict, names[1..], t);
      if NamedAny(strict, names[1..], t) {
        var i :| 0 <= i < |names[1..]| && Named(strict, names[1..][i], t);
        assert names[i + 1] == names[1..][i];
      }
      if exists i :: 0 <= i < |names| && Named(strict, names[i], t) {
        var i :| 0 <= i < |names| && Named(strict, names[i], t);
        if i > 0 {
          assert names[1..][i - 1] == names[i];
        }
      }
    }
  }

  /** The strict filter is finer than the loose one, and the loose filter
      ignores the case of the requested name. */
  lemma NamedCasePolicies(name: string, t: Tag)
    ensures Named(true, name, t) ==> Named(false, name, t)
    ensures Named(false, name, t) <==> Named(false, Downcase(name), t)
  {
    DowncaseIdempotent(name);
  }

  /** The `LIKE` comparison behind `named_like`, supplied by the database:
      `like(tagName, pattern)` tells whether `tagName LIKE '%pattern%'`. */
  type LikeMatch = (string, string) -> bool

  /** The condition of `named_like(name)`. */
  predicate NamedLike(like: LikeMatch, name: string, t: Tag) {
    like(t.name, name)
  }

  // ---------------------------------------------------------------------
  // Instance methods

  /** Any Ruby object `Tag#==` may be compared with. */
  datatype Value = TagValue(tag: Tag) | OtherValue

  /** `super || (object.is_a?(Tag) && name == object.name)`, where `super`
      (the record comparison) holds for the same persisted row. */
  function TagEquals(t: Tag, other: Value): (r: bool)
    ensures r ==> other.TagValue?
    ensures other.TagValue? && other.tag.name == t.name ==> r
    ensures other.TagValue? && t.id.Some? && other.tag.id == t.id ==> r
    ensures other.TagValue? && other.tag.name != t.name && (t.id.None? || other.tag.id != t.id) ==> !r
  {
    other.TagValue? &&
    ((t.id.Some? && t.id == other.tag.id) || t.name == other.tag.name)
  }

  /** Equality is reflexive and symmetric, holds for equal names whatever the
      ids and scores, fails for different names unless both are the same
      saved row, and never holds against a non-tag object. */
  lemma TagEqualsProperties(t: Tag, u: Tag, s: Option<nat>)
    ensures TagEquals(t, TagValue(t))
    ensures TagEquals(t, TagValue(u)) <==> TagEquals(u, TagValue(t))
    ensures t.name == u.name ==> TagEquals(t, TagValue(u.(score := s)))
    ensures t.name != u.name && (t.id.None? || t.id != u.id) ==> !TagEquals(t, TagValue(u.(score := s)))
    ensures !TagEquals(t, OtherValue)
  {
  }

  /** `read_attribute(:count).to_i`: a missing count reads as 0. */
  function Count(t: Tag): (n: int)
    ensures t.countAttr.None? ==> n == 0
    ensures t.countAttr.Some? ==> n == t.countAttr.value
  {
    match t.countAttr
    case None => 0
    case Some(c) => c
  }

  // ---------------------------------------------------------------------
  // Validations

  /** `validates_presence_of :name` and `validates_length_of :name, :maximum => 255`. */
  predicate ValidName(name: string) {
    !IsBlank(name) && |name| <= MaxNameLength
  }

  /** Some stored record carries exactly this name. */
  predicate StoresName(store: seq<Tag>, name: string) {
    exists i :: 0 <= i < |store| && store[i].name == name
  }

  /** All three validations, `validates_uniqueness_of :name` included
      (case-sensitive, as Rails' default is). */
  predicate CanCreate(store: seq<Tag>, name: string) {
    ValidName(name) && !StoresName(store, name)
  }

  /** The tag table: row `i` has id `i`, carries no transient score or count,
      and the validations held when it was saved. */
  predicate StoreValid(store: seq<Tag>) {
    (forall i :: 0 <= i < |store| ==>
       store[i].id == Some(i) && store[i].score.None? && store[i].countAttr.None? && ValidName(store[i].name)) &&
    (forall i, j :: 0 <= i < j < |store| ==> store[i].name != store[j].name)
  }

  /** What `Tag.create(:name => name)` returns: a saved record when the
      validations pass, an unsaved one otherwise. */
  function NewRecord(store: seq<Tag>, name: string): (t: Tag)
    ensures t.name == name && t.score.None? && t.countAttr.None?
    ensures t.Persisted() <==> CanCreate(store, name)
  {
    Tag(if CanCreate(store, name) then Some(|store|) else None, name, None, None)
  }

  /** The table after `Tag.create`: the record is appended only if saved. */
  function AfterCreate(store: seq<Tag>, t: Tag): seq<Tag> {
    if t.Persisted() then store + [t] else store
  }

  /** Creating keeps the table valid and only ever appends. */
  lemma CreateKeepsStoreValid(store: seq<Tag>, name: string)
    requires StoreValid(store)
    ensures StoreValid(AfterCreate(store, NewRecord(store, name)))
    ensures StoresName(AfterCreate(store, NewRecord(store, name)), name) <==> StoresName(store, name) || ValidName(name)
  {
    var t := NewRecord(store, name);
    if t.Persisted() {
      var s := store + [t];
      assert s[|store|] == t;
      forall i, j | 0 <= i < j < |s| ensures s[i].name != s[j].name {
        if j == |store| {
          assert s[i] == store[i];
        }
      }
    }
  }
}
