# acts-as-taggable-on: tag resolution and the context registry, in Dafny

This project models the two parts of acts-as-taggable-on that carry its
logic.

- **Tag resolution** (`ActsAsTaggableOn::Tag`, `lib/acts_as_taggable_on/tag.rb`).
  Raw strings are turned into tag rows under the strict or the loose
  case-matching policy (`ActsAsTaggableOn.strict_case_match`). Scored inputs
  carry a `name:digits` suffix, which is parsed off.
- **The per-type context registry** (`ActsAsTaggableOn::Taggable`,
  `lib/acts_as_taggable_on/taggable.rb`). `taggable_on` and the `acts_as_*`
  declarations record which contexts a model class is taggable on. They also
  record whether each context is ordered and whether it is scored.

The tags table is an abstract in-memory store, `seq<Tag>`, standing in for
ActiveRecord. Row `i` has id `i`, and a record is persisted exactly when it
has an id. Query results come back in table order.

## Layout

| file | module | contents |
|---|---|---|
| `wrappers.dfy` | `Wrappers` | `Option`, for Ruby's `nil` |
| `text.dfy` | `Text` | ASCII case folding (`mb_chars.downcase`, SQL `lower`), `blank?`, decimal digits and `to_i` |
| `sequences.dfy` | `Sequences` | `Array#uniq`, `select`/`reject` as `Filter`, and their lemmas |
| `tag.dfy` | `Tags` | the `Tag` record; `name_and_score`, `split_if_scored`; the `named`, `named_any` and `named_like` conditions; `comparable_name`, `==`, `count`; the validations and `Tag.create` on the store |
| `tag_resolution.dfy` | `TagResolution` | one specification function per step of `find_or_create_all_with_like_by_name` (`Resolve`), the single-name variant (`ResolveOne`), and the properties of both |
| `tag_store.dfy` | `TagStores` | class `TagStore`, a mutable tags table whose methods `Create`, `FindOrCreateAll` and `FindOrCreate` run those steps in place; each is proved equal to its specification function |
| `taggable.dfy` | `Taggable` | the argument flattening, the specification function `Declare` with its properties, and class `Registry`, whose `TaggableOn` and `ActsAs*` methods update the registry fields in place |

## Behaviour worth knowing

- **Score parsing.** `name_and_score` returns `[nil, 0]` for a string that
  does not match `^(.+):(\d+)$` (tag.rb:46-49), not the string itself;
  `":5"` is one, since nothing precedes its colon.
  `Tags.NameAndScore` returns `NameScore(None, 0)` for it.
- **Comparison against existing tags.** The `reject` step compares
  `comparable_name`s, and `comparable_name` downcases under either case
  policy (tag.rb:77-80, 110-112). So under the strict policy a requested name
  that differs only in case from a row the lookup found is not created
  (`TagResolution.StrictDropsCaseVariant`).
- **Single-name lookup.** `find_or_create_with_like_by_name` (tag.rb:55-64)
  takes `.first` of the batch path under the strict policy. Under the loose
  policy it takes the first `LIKE '%name%'` match, or else creates the tag.
- **Failed creates.** `Tag.create` returns an unsaved record when a
  validation fails, and the batch path returns that record with the others
  (tag.rb:81; `TagResolution.DuplicateNewNameCreatedTwice`). Nothing
  re-fetches the row that made the uniqueness validation fail.
- **First declaration.** The first `taggable_on` stores its list as given,
  duplicates included (taggable.rb:93). Only later declarations apply `uniq`
  (taggable.rb:83).
- **Undeclared contexts.** `preserve_tag_order` and `tags_have_scores` hold
  exactly the declared contexts (taggable.rb:84-87,
  `Taggable.DeclareConsistent`); these files do not read them back.

## Model

| member | source | states |
|---|---|---|
| `Tags.NameAndScore` | lib/acts_as_taggable_on/tag.rb:46-49 | without a match, the name is nil and the score 0; with a match, the input is `name:digits` with a non-empty name and non-empty digits, and the score is the digits' value |
| `Tags.NameAndScoreOfScoredForm` | lib/acts_as_taggable_on/tag.rb:46-49 | every `name:digits` string gives exactly that name and the digits' value; the greedy `.+` splits at the last colon |
| `Tags.NameAndScoreExamples` | lib/acts_as_taggable_on/tag.rb:46-49 | `"a:1:2"` gives `("a:1", 2)` and `"focus:5"` gives `("focus", 5)` |
| `Tags.NameAndScoreRejects` | lib/acts_as_taggable_on/tag.rb:46-49 | `"focus:abc"`, `"focus"` and `":5"` give `(nil, 0)` |
| `Tags.SplitIfScored` | lib/acts_as_taggable_on/tag.rb:51-53 | unscored, the string comes back unchanged with a nil score; scored, the result is `name_and_score` of the string |
| `Tags.SplitIfScoredOfScoredForm` | lib/acts_as_taggable_on/tag.rb:51-53 | in scored mode, a `name:digits` entry yields that name and that score |
| `Text.Downcase` | lib/acts_as_taggable_on/tag.rb:111 | `mb_chars.downcase` (ASCII only): the result has the input's length and each character is the lower-case form of the input's character at that position |
| `Tags.ComparableName` | lib/acts_as_taggable_on/tag.rb:110-112 | the result lower-cases the input character by character, under either case policy; it has the input's length, holds no upper-case letter and is its own downcase |
| `Tags.Named` | lib/acts_as_taggable_on/tag.rb:20-26 | the `named(name)` condition: a row it selects has the requested name up to case, under either policy, and a row with exactly the requested name is always selected |
| `Tags.NamedAny` | lib/acts_as_taggable_on/tag.rb:28-34 | the `named_any(list)` condition: a row it selects has, up to case, the name of some listed entry, and a row whose exact name is listed is always selected |
| `Tags.NamedAnyIsOr` | lib/acts_as_taggable_on/tag.rb:28-34 | the `named_any` condition holds exactly when the `named` condition holds for some listed name |
| `Tags.NamedCasePolicies` | lib/acts_as_taggable_on/tag.rb:20-26 | a strict match is also a loose match; the loose match ignores the case of the requested name |
| `Tags.TagEquals` | lib/acts_as_taggable_on/tag.rb:96-98 | `Tag#==`: true exactly when the other object is a tag with the same name or the same persisted row; false against a non-tag, and false against a tag with a different name that is not the same saved row |
| `Tags.TagEqualsProperties` | lib/acts_as_taggable_on/tag.rb:96-98 | `==` is reflexive and symmetric; it holds for equal names whatever the ids and scores, and fails for different names unless both are the same saved row; it never holds against a non-tag |
| `Tags.Count` | lib/acts_as_taggable_on/tag.rb:104-106 | a missing `count` attribute reads as 0, a present one as its value |
| `Tags.NewRecord` | lib/acts_as_taggable_on/tag.rb:14-16 | `Tag.create` always returns a record with the given name and no score; it is saved exactly when the name is non-blank, at most 255 characters long and not yet stored |
| `Tags.CreateKeepsStoreValid` | lib/acts_as_taggable_on/tag.rb:14-16 | creating keeps the table valid, with unique, valid names; afterwards a name is stored exactly when it was stored before or is valid |
| `TagResolution.HashOfLastWins` | lib/acts_as_taggable_on/tag.rb:72 | the keys of `Hash[pairs]` are the pairs' names, and a repeated name maps to the score of its last pair |
| `TagResolution.ScoredRequestNames` | lib/acts_as_taggable_on/tag.rb:71-74 | in scored mode the requested names are exactly the parsed names, each listed once |
| `TagResolution.ScoredRequestScores` | lib/acts_as_taggable_on/tag.rb:71-74 | in scored mode the last entry for a name decides its score |
| `TagResolution.MatchingTagsMembers` | lib/acts_as_taggable_on/tag.rb:76 | the one batched lookup returns exactly the stored rows that `named_any` selects |
| `TagResolution.NewTagNamesMeaning` | lib/acts_as_taggable_on/tag.rb:77-80 | a name is new exactly when it was requested and its downcased form is no existing tag's; every copy of a new name is kept, in input order |
| `TagResolution.CreateEach` | lib/acts_as_taggable_on/tag.rb:81 | `new_tag_names.map { Tag.create }`: one record per new name; the table is only appended to, old rows untouched, at most one row per name |
| `TagResolution.CreateEachStore` | lib/acts_as_taggable_on/tag.rb:81 | creating the new names keeps the table valid; the added rows are exactly the saved records; afterwards the stored names are the old ones plus the valid requested ones |
| `TagResolution.CreateEachTags` | lib/acts_as_taggable_on/tag.rb:81 | the k-th created record has the k-th new name and no score; it is saved exactly when that name is valid, not stored, and not requested earlier in the batch |
| `TagResolution.WithScoresAt` | lib/acts_as_taggable_on/tag.rb:85-89 | every returned tag keeps everything except its score, which becomes the score stored under its exact name, or nil |
| `TagResolution.ResolveEmpty` | lib/acts_as_taggable_on/tag.rb:67-69 | an empty list returns `[]` and leaves the table unchanged |
| `TagResolution.Resolve` | lib/acts_as_taggable_on/tag.rb:66-92 | `find_or_create_all_with_like_by_name`: a non-empty list always returns at least one tag, so `.first` is never nil; the table is only appended to, old rows untouched, at most one row per list entry |
| `TagResolution.ResolveExisting` | lib/acts_as_taggable_on/tag.rb:76-83 | the result starts with exactly the stored tags matching some requested name, in table order, and has one more tag per new name |
| `TagResolution.ResolveCreated` | lib/acts_as_taggable_on/tag.rb:77-83 | after the existing tags come the created records, one per new name in input order; each is saved exactly when its name is valid, not stored and not requested earlier |
| `TagResolution.ResolveKeepsRecords` | lib/acts_as_taggable_on/tag.rb:83-89 | apart from the scores, the result is the lookup's rows followed by the created records |
| `TagResolution.ResolveNothingNew` | lib/acts_as_taggable_on/tag.rb:77-83 | an unscored batch whose every name matches the lookup returns the lookup's rows and leaves the table unchanged |
| `TagResolution.ResolveStore` | lib/acts_as_taggable_on/tag.rb:66-92 | the table stays valid, and afterwards stores exactly the old names plus the valid new ones |
| `TagResolution.MatchingTagsUnscored` | lib/acts_as_taggable_on/tag.rb:76 | rows found by the lookup carry no score |
| `TagResolution.ResolveScores` | lib/acts_as_taggable_on/tag.rb:85-89 | unscored, every returned tag has a nil score; scored, each one gets the score stored under its exact name, so an existing tag matched under a different case gets nil |
| `TagResolution.LooseMatchesExisting` | lib/acts_as_taggable_on/tag.rb:20-34 | under the loose policy, a requested name matches an existing tag exactly when some stored name has the same downcased form |
| `TagResolution.LooseNewNames` | lib/acts_as_taggable_on/tag.rb:77-80 | under the loose policy a requested name is created exactly when no stored name equals it up to case |
| `TagResolution.LooseReusesStored` | lib/acts_as_taggable_on/tag.rb:76-83 | under the loose policy, an unscored batch whose every name is stored up to case creates nothing |
| `TagResolution.LikeMatches` | lib/acts_as_taggable_on/tag.rb:36-38 | `named_like(name)`: the rows selected are exactly the stored rows whose name is `LIKE '%name%'` |
| `TagResolution.StrictLookupOfStored` | lib/acts_as_taggable_on/tag.rb:28-34 | a strict lookup of `[a, b]` with only `a` stored finds exactly that row |
| `TagResolution.StrictDropsCaseVariant` | lib/acts_as_taggable_on/tag.rb:77-80 | under the strict policy, with `a` stored and its case variant `b` not stored, resolving the unscored list `[a, b]` returns only `a` and creates nothing |
| `TagResolution.DuplicateNewNameCreatedTwice` | lib/acts_as_taggable_on/tag.rb:77-81 | an unscored `[a, a]` with nothing like `a` stored calls `create` twice; the first record is saved and the second is returned unsaved; the table gains one row |
| `TagResolution.NoLookupMatch` | lib/acts_as_taggable_on/tag.rb:20-34 | a lookup finds nothing when no stored name equals the requested name up to case, under either policy |
| `TagResolution.CreateTwice` | lib/acts_as_taggable_on/tag.rb:14-16 | creating a new valid name twice saves only the first record |
| `TagResolution.NamedAnySingle` | lib/acts_as_taggable_on/tag.rb:28-34 | `named_any` of one name is `named` of that name |
| `TagResolution.StrictSingleMatches` | lib/acts_as_taggable_on/tag.rb:20-34 | a strict lookup of one name finds the single row with exactly that name, or nothing |
| `TagResolution.ResolveOne` | lib/acts_as_taggable_on/tag.rb:55-64 | `find_or_create_with_like_by_name`: under either policy the table is only appended to, old rows untouched, and gains at most one row |
| `TagResolution.StrictOneStored` | lib/acts_as_taggable_on/tag.rb:57 | the strict batch on `[name]`, with the name stored, returns that row alone and creates nothing |
| `TagResolution.StrictOneNew` | lib/acts_as_taggable_on/tag.rb:57 | the strict batch on `[name]`, with the name not stored, returns the record `Tag.create` gives for it |
| `TagResolution.StrictOneFindsOrCreates` | lib/acts_as_taggable_on/tag.rb:55-57 | strict, unscored single lookup returns a tag of exactly that name; a stored row is reused with no creation; otherwise the name is created, and saved exactly when valid |
| `TagResolution.StrictOneIdempotent` | lib/acts_as_taggable_on/tag.rb:55-57 | strict and unscored: resolving a valid name twice gives tags of that name, and the second call creates no row |
| `TagResolution.StrictCaseVariantIsNew` | lib/acts_as_taggable_on/tag.rb:55-57 | strict and unscored: with `a` stored, a valid unstored `b` that equals `a` up to case is created as a separate, saved row |
| `TagResolution.LooseOneResult` | lib/acts_as_taggable_on/tag.rb:58-63 | loose: the result is the first stored row whose name is `LIKE` the parsed name, else the record created for it; the store changes only in the create case; the result carries the score `split_if_scored` gave |
| `TagResolution.LooseOneIdempotent` | lib/acts_as_taggable_on/tag.rb:58-63 | loose and unscored: if `LIKE` finds a name in itself, resolving a valid name twice returns the same tag and the second call creates no row |
| `TagStores.TagStore.constructor` | lib/acts_as_taggable_on/tag.rb:14-16 | an empty, valid table under the given case policy |
| `TagStores.TagStore.Create` | lib/acts_as_taggable_on/tag.rb:14-16 | returns the record `Tag.create` gives; it is appended to the table exactly when it is saved |
| `TagStores.TagStore.FindOrCreateAll` | lib/acts_as_taggable_on/tag.rb:66-92 | the returned tags and the new table are those of the specification `Resolve` |
| `TagStores.TagStore.CreateAll` | lib/acts_as_taggable_on/tag.rb:81 | creates the names one by one, in order, leaving the records and the table of `CreateEach` |
| `TagStores.TagStore.FindOrCreate` | lib/acts_as_taggable_on/tag.rb:55-64 | the returned tag and the new table are those of the specification `ResolveOne` |
| `TagStores.AssignScores` | lib/acts_as_taggable_on/tag.rb:85-89 | every tag gets the score recorded under its exact name, or nil; nothing else changes |
| `Taggable.Contexts` | lib/acts_as_taggable_on/taggable.rb:79 | `tag_types.to_a.flatten.compact`: the result holds exactly the context names that occur at any depth; nil entries are dropped |
| `Taggable.ContextsAppend` | lib/acts_as_taggable_on/taggable.rb:79 | flattening a concatenation flattens each part, in order |
| `Taggable.ContextsExamples` | lib/acts_as_taggable_on/taggable.rb:79 | `:languages, :skills` gives both names; a splat with nil and nested arrays gives its names left to right, duplicates kept |
| `Taggable.SingleListContexts` | lib/acts_as_taggable_on/taggable.rb:22-24 | a wrapper's splat, passed on as one array, flattens to the same contexts |
| `Taggable.SetAllMeaning` | lib/acts_as_taggable_on/taggable.rb:84-87 | writing a flag under every listed context: listed contexts get the value, other keys keep theirs, and no key is invented |
| `Sequences.Uniq` | lib/acts_as_taggable_on/taggable.rb:83 | `Array#uniq`: the result lists nothing twice and is never longer than the input |
| `Sequences.UniqMembers` | lib/acts_as_taggable_on/taggable.rb:83 | `Array#uniq` drops no element and adds none: an element is in the result exactly when it is in the input |
| `Taggable.Declare` | lib/acts_as_taggable_on/taggable.rb:78-100 | `taggable_on`: afterwards the type is taggable and the declared contexts are exactly those declared before together with the call's |
| `Taggable.DeclareConsistent` | lib/acts_as_taggable_on/taggable.rb:78-101 | every declaration makes the type taggable and sets the latest contexts to the call's; both flag hashes stay keyed by exactly the declared contexts |
| `Taggable.DeclareFirst` | lib/acts_as_taggable_on/taggable.rb:88-100 | the first declaration sets `tag_types` and `latest_tag_types` to the list as given, duplicates kept; the hashes hold only those contexts, with the call's flags |
| `Taggable.DeclareMerge` | lib/acts_as_taggable_on/taggable.rb:81-83 | a re-declaration lists the old contexts deduplicated in first-occurrence order, then the unseen new ones; no duplicates; the set of contexts is the union |
| `Taggable.DeclareExtends` | lib/acts_as_taggable_on/taggable.rb:81-83 | with no duplicates so far, the old list is an unchanged prefix and the appended part is exactly the new contexts not already declared |
| `Taggable.DeclareFlags` | lib/acts_as_taggable_on/taggable.rb:84-87 | every context of the call gets the call's flags; on a re-declaration other contexts keep theirs; on a first declaration other contexts have none |
| `Taggable.DeclareTwiceExample` | lib/acts_as_taggable_on/taggable.rb:78-100 | declaring `genres` ordered and then `moods` scored lists both, in that order, each with its own flags |
| `Taggable.Registry.constructor` | lib/acts_as_taggable_on/taggable.rb:3-5 | before any declaration the type is not taggable and nothing is declared |
| `Taggable.Registry.TaggableOn` | lib/acts_as_taggable_on/taggable.rb:78-108 | the new registry state is `Declare` of the old one; the type is taggable afterwards |
| `Taggable.Registry.WriteFlags` | lib/acts_as_taggable_on/taggable.rb:84-87 | the loop writes both flags under every latest context, last write winning |
| `Taggable.Registry.ActsAsTaggable` | lib/acts_as_taggable_on/taggable.rb:14-16 | declares the single context `tags`, unordered and unscored |
| `Taggable.Registry.ActsAsScoredTaggable` | lib/acts_as_taggable_on/taggable.rb:18-20 | declares the single context `tags`, unordered and scored |
| `Taggable.Registry.ActsAsScoredTaggableOn` | lib/acts_as_taggable_on/taggable.rb:22-24 | declares the given contexts, unordered and scored |
| `Taggable.Registry.ActsAsOrderedTaggable` | lib/acts_as_taggable_on/taggable.rb:33-35 | declares the single context `tags`, ordered and unscored |
| `Taggable.Registry.ActsAsTaggableOn` | lib/acts_as_taggable_on/taggable.rb:46-48 | declares the given contexts, unordered and unscored |
| `Taggable.Registry.ActsAsOrderedTaggableOn` | lib/acts_as_taggable_on/taggable.rb:61-63 | declares the given contexts, ordered and unscored |

## Left out

- ActiveRecord and SQL are not modelled. This covers the `has_many` associations, `class_eval`, the included `Utils`/`Core`/`Collection`/`Cache`/`Ownership`/`Related`/`Dirty` modules, `sanitize_sql` and `attr_accessible`. The tags table is an abstract sequence of rows, and a query returns rows in table order.
- `like_operator` and `escape_like` come from `ActsAsTaggableOn::Utils`, which is not part of this model. `named_like` therefore takes the `LIKE '%name%'` comparison as a parameter, and nothing is claimed about its case sensitivity.
- `named_like_any` (tag.rb:40-42) is not used by either resolution path and is not modelled.
- `Tag#to_s` (tag.rb:100-102) just returns `name`; the model reads the `name` field directly.
- Unicode case folding is not modelled. `mb_chars.downcase` and SQL `lower` are both ASCII lower-casing. Unicode white space is not modelled either: `blank?` is `Text.IsBlank`, which treats only ASCII space, tab, newline, vertical tab, form feed and carriage return as blank.
- Ruby's `^`/`$` anchor at line breaks. Scored entries are therefore required to contain no newline, and the regular expression is modelled as a whole-string match.
- `TagResolution.Resolve` requires, in scored mode, that every entry matches `name:digits`. Otherwise the name is nil and `comparable_name` raises; that exception is not modelled. `ResolveOne` and `TagStores.TagStore.FindOrCreate` require the same of their one name.
- `TagStores.TagStore.FindOrCreateAll` takes its list already flattened. The `[list].flatten` of nested arrays of names is not modelled for tags; it is modelled for contexts.
- The uniqueness validation is Rails' default, which is case-sensitive. Races between concurrent creators and database-level constraints are not modelled.
- `tag.score = ...` mutates the record objects in place. The model returns updated values instead, so aliasing between a returned record and other references to it is not captured.
- `HashWithIndifferentAccess` key equivalence between symbols and strings is not modelled; contexts are plain strings. `class_attribute` inheritance across subclasses is not modelled either, and the registry is one owner type's.
- The `has_many` associations and the redefinition of `taggable?` through `class_eval` (taggable.rb:102-117) become the `taggable` field being set.
- The per-instance facade, which assigns and lists tags, is not part of these files.
