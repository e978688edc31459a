# git-lfs-migrate: the object converter

git-lfs-migrate rewrites a git repository so that the files whose names end
with chosen suffixes are stored in Git LFS. Each object of the source
repository is converted once, under a *task key*: an object id together with
a task type (`Simple`, `Root`, `Attribute`, `UploadLfs`). `GitConverter`
chooses the converter for a key (`convertTask`). Each converter declares the
keys it depends on (`depends()`). Once a scheduler has converted those keys,
the converter builds the new object from their resolved ids (`convert`):

- a commit is rebuilt with converted parents and its converted root tree;
- a tree is rebuilt from its classified entries, sorted in git's canonical
  order; in a root tree the first `.gitattributes` is rewritten, or added
  when missing and some suffix is tracked;
- a tracked regular file is moved into the LFS cache under its SHA-256 and
  replaced by a small pointer blob;
- the root tree's `.gitattributes` is rewritten: each input line is copied,
  except that a line equal to a generated `filter=lfs` rule not yet met is
  consumed and not written; the rules never met are appended in ascending
  order;
- an annotated tag is rebuilt around its converted target;
- any other blob is copied unchanged.

This project models that engine in Dafny and proves what each converter
promises. The source store is a map from ids to decoded objects. The
destination repository is a class (`Store.Repository`) whose object map and
file map the converters change. Hashing is abstract: the destination's
`hashOf` gives the id an object is inserted under, and the LFS converter is
given the SHA-256 hex digest of the blob. The resolver is a total function
from task keys to destination ids. The scheduler behind it is not modelled.

Modules: `Objects` (ids, modes, objects, task keys), `Lex` (character-code
string order and a set's ascending sequence, the iteration order of a
`TreeSet`), `Text` (UTF-8), `Store` (destination repository), `Dispatch`
(`convertTask`), `CommitTag`, `TreeOrder` (canonical tree order and the
in-place sort), `Tree` (`getEntries`, `matchFilename`, tree `convert`),
`Attributes`, `Lfs`, `CopyTask`, and `Converter` (the dependency keys of
every converter, and the proof that they can be dispatched).

A submodule entry (mode `Gitlink`) names a commit of another repository. The
tree converter gives it a `Simple` key, and dispatching that key parses the
commit from the source store. So a tree with a submodule converts only when
that commit is present; `Converter.Closed` asks for it accordingly.

The attributes converter is evidently meant to keep every line the user
wrote, add only the rules that are missing, and leave an up-to-date file
as it is. As written, its first pass drops a rule that is already present
(see Findings). `Attributes.ConvertAttributes` models the code as written;
`Attributes.CorrectedConvertAttributes` is the intended converter, with its
coverage and idempotence proved.

## Model

| member | source | states |
|---|---|---|
| Dispatch.ConvertTaskFor | src/main/java/git/lfs/migrate/GitConverter.java:57-89 | The converter chosen answers to the same key and was built from the stored object. It fails exactly for a `Simple` or `Root` key whose object is missing (MissingObject), or a `Root` key on a non-tree (the IllegalStateException). `Attribute` and `UploadLfs` keys never fail. |
| Converter.DependenciesDispatch | src/main/java/git/lfs/migrate/GitConverter.java:57-89 | In a source store closed under references, every key a dispatched converter depends on dispatches successfully too; in particular a commit's `Root` key always names a tree. |
| CommitTag.CommitDepends | src/main/java/git/lfs/migrate/GitConverter.java:125-132 | The commit's keys: each parent as a `Simple` key, in order, then its tree as the `Root` key: one key more than there are parents. |
| CommitTag.CommitKeysShape | src/main/java/git/lfs/migrate/GitConverter.java:125-132 | Exactly one commit key is a `Root` key, the last one; all the others are `Simple` keys. |
| CommitTag.BuildCommit | src/main/java/git/lfs/migrate/GitConverter.java:136-147 | The new commit keeps author, committer, encoding and message; parent i becomes the resolved `Simple` key of parent i; the tree becomes the resolved `Root` key of the tree. |
| CommitTag.CommitConvertResolvesDepends | src/main/java/git/lfs/migrate/GitConverter.java:125-147 | `convert` uses exactly the keys `depends()` declared: the new parents followed by the new tree are the resolved dependency keys, in order. |
| CommitTag.ConvertCommit | src/main/java/git/lfs/migrate/GitConverter.java:136-149 | The converted commit is inserted under its hash, and that id is returned; no file changes. |
| CommitTag.ConvertedTag | src/main/java/git/lfs/migrate/GitConverter.java:100-114 | The new target is the resolved `Simple` key of the old target, the declared dependency. The recorded target type, name, tagger and message are kept. |
| CommitTag.ConvertTag | src/main/java/git/lfs/migrate/GitConverter.java:108-115 | The converted tag is inserted under its hash, and that id is returned; no file changes. |
| Tree.MatchFilename | src/main/java/git/lfs/migrate/GitConverter.java:207-214 | True exactly when the name ends with one of the tracked suffixes. |
| Tree.Entries | src/main/java/git/lfs/migrate/GitConverter.java:157-179 | One entry per tree entry, in order, keeping mode, name and object id. When a root tree has no `.gitattributes` and some suffix is tracked, a regular-file `.gitattributes` with the zero id and an `Attribute` key is appended. |
| Tree.EntryTaskType | src/main/java/git/lfs/migrate/GitConverter.java:164-171 | An entry never gets a `Root` key. `Attribute` only for a root tree's `.gitattributes`; `UploadLfs` only for a regular file matching a suffix; `Simple` only when neither rule applies. |
| Tree.GetEntries | src/main/java/git/lfs/migrate/GitConverter.java:157-179 | The loop with its `needAttributes` flag computes exactly `Entries`: the flag holds while no `.gitattributes` has been met in a root tree. |
| Tree.TreeDepends | src/main/java/git/lfs/migrate/GitConverter.java:183-189 | The tree's dependency keys are the keys of its entries, in order. |
| Converter.Depends | src/main/java/git/lfs/migrate/GitConverter.java:100-362 | The copy, attributes and LFS converters depend on nothing (lines 222, 327, 362). Only a commit has a `Root` dependency, its own tree; only a root tree has an `Attribute` dependency. |
| Tree.AttributeKeyIsFirstGitattributes | src/main/java/git/lfs/migrate/GitConverter.java:160-177 | An entry has an `Attribute` key if and only if the tree is a root tree and the entry is its first one named `.gitattributes`. This covers the appended entry too. |
| Tree.AtMostOneAttributeEntry | src/main/java/git/lfs/migrate/GitConverter.java:160-166 | No two entries both have `Attribute` keys, and an `Attribute` key occurs only in a root tree. |
| Tree.NonRootHasNoAttributeEntry | src/main/java/git/lfs/migrate/GitConverter.java:160-166 | A subtree never has an `Attribute` entry. |
| Tree.RootTreeHasAttributeEntry | src/main/java/git/lfs/migrate/GitConverter.java:164-177 | A root tree converted with at least one tracked suffix always has an `Attribute` entry, existing or appended. |
| Tree.UploadLfsExactlyTrackedRegularFiles | src/main/java/git/lfs/migrate/GitConverter.java:164-171 | An entry has an `UploadLfs` key if and only if it is a regular (non-executable) file whose name ends with a tracked suffix. The root tree's attributes entry is the one exception. |
| Tree.NoSuffixesNoLfs | src/main/java/git/lfs/migrate/GitConverter.java:167-177 | With no tracked suffix, no entry goes to LFS and no entry is appended. |
| Lex.LexLe | src/main/java/git/lfs/migrate/GitConverter.java:196 | A prefix comes first, and otherwise the first differing character decides. |
| TreeOrder.SortKey | src/main/java/git/lfs/migrate/GitConverter.java:196 | An entry is compared by its name, followed by '/' exactly when it is a directory. |
| TreeOrder.InsertAt | src/main/java/git/lfs/migrate/GitConverter.java:196 | Given a sorted prefix `a[..i]`, `a[..i+1]` becomes sorted. The entries are permuted and those after `i` are untouched. |
| TreeOrder.SortEntries | src/main/java/git/lfs/migrate/GitConverter.java:196 | Sorting in place leaves the array in canonical tree order and a permutation of the original. |
| Tree.BuildTree | src/main/java/git/lfs/migrate/GitConverter.java:194-200 | The new tree is in canonical order. It holds exactly the entries with each key replaced by its resolved id, as a multiset. |
| Tree.DistinctNamesDistinctKeys | src/main/java/git/lfs/migrate/GitConverter.java:196 | Distinct names without '/' (as git names are) have distinct sort keys, even between a directory and a file. |
| Tree.SortedUnique | src/main/java/git/lfs/migrate/GitConverter.java:196-202 | Two sorted arrangements of the same items with distinct keys are equal, so the inserted tree does not depend on the order the entries met the sort. |
| Tree.ConvertTree | src/main/java/git/lfs/migrate/GitConverter.java:193-203 | Inserts a tree that is sorted and a permutation of the resolved entries of `getEntries`, and returns its id; no file changes. |
| Attributes.RuleInjective | src/main/java/git/lfs/migrate/GitConverter.java:334-336 | Distinct suffixes give distinct rules. |
| Attributes.BuildRules | src/main/java/git/lfs/migrate/GitConverter.java:333-336 | The rule set holds exactly one `*<suffix>\tfilter=lfs diff=lfs merge=lfs -crlf` per tracked suffix. |
| Attributes.OpenAttributes | src/main/java/git/lfs/migrate/GitConverter.java:380-385 | Reading succeeds exactly for the zero id, which reads as empty without consulting the store, or for a stored blob, which reads as its bytes. Otherwise it fails with MissingObject for an absent id, IncorrectObjectType for a non-blob. |
| Converter.AttributesOpenExactlyForFiles | src/main/java/git/lfs/migrate/GitConverter.java:380-385 | In a store whose objects have the kinds their tree modes announce, a root tree's attributes entry opens exactly when it is the appended entry or a file (blob) entry; a `.gitattributes` directory or submodule fails with IncorrectObjectType. |
| Attributes.CopyPass | src/main/java/git/lfs/migrate/GitConverter.java:339-347 | Pass one only consumes pending rules, writes no more lines than it reads, and writes only input lines; a pending rule it writes is no longer pending. |
| Lex.Ascending | src/main/java/git/lfs/migrate/GitConverter.java:348-351 | The rules left are written in strictly ascending character-code order, each exactly once. |
| Attributes.AppendAscending | src/main/java/git/lfs/migrate/GitConverter.java:348-351 | The text grows by the rules left, in ascending order, each followed by a newline. |
| Attributes.AttributesText | src/main/java/git/lfs/migrate/GitConverter.java:333-351 | The text of the new blob is the lines of pass one followed by the rules still pending, in ascending order, each line ending in a newline. |
| Attributes.ConvertAttributes | src/main/java/git/lfs/migrate/GitConverter.java:332-352 | When the prior file cannot be opened, fails with the same error and changes nothing. Otherwise inserts the UTF-8 bytes of the as-written text of its lines as a blob and returns the id; no file changes. For the zero id (no prior file) the inserted blob is every rule once, ascending. Requires only that an empty stream reads no line. |
| Attributes.CorrectedConvertAttributes | src/main/java/git/lfs/migrate/GitConverter.java:332-352 | Corrected converter: the same error cases, the same blob for the zero id, and on success the blob holds the corrected text. |
| Attributes.NewFileHoldsAllRules | src/main/java/git/lfs/migrate/GitConverter.java:333-351 | The zero id opens as the empty stream; when an empty stream reads no line, the new file holds every generated rule once, in ascending order, as written and corrected alike. |
| Attributes.CopyPassKeepsOrder | src/main/java/git/lfs/migrate/GitConverter.java:339-347 | Pass one writes the input lines in their order, leaving out exactly each line that is a pending rule met for the first time. |
| Attributes.CopyPassCounts | src/main/java/git/lfs/migrate/GitConverter.java:339-347 | After pass one, the pending rules are exactly those that never occur in the input. The lines written are the input less one occurrence of each rule that does occur. |
| Attributes.NoSuffixesCopiesInput | src/main/java/git/lfs/migrate/GitConverter.java:333-351 | With no tracked suffixes the output lines are the input lines. |
| Attributes.OtherLinesKept | src/main/java/git/lfs/migrate/GitConverter.java:342-345 | A line that is not a generated rule is written as often as it occurs in the input. |
| Attributes.MissingRuleAddedOnce | src/main/java/git/lfs/migrate/GitConverter.java:342-351 | A tracked suffix whose rule is absent from the input gets its rule exactly once. |
| Attributes.PresentRuleIsDropped | src/main/java/git/lfs/migrate/GitConverter.java:342-345 | An input holding a tracked suffix's rule exactly once comes out with no such rule at all. |
| Attributes.PresentRuleExample | src/main/java/git/lfs/migrate/GitConverter.java:342-351 | An attributes file that already holds the `.bin` rule is rewritten to empty text when `.bin` is tracked. |
| Attributes.CorrectedAttributesText | src/main/java/git/lfs/migrate/GitConverter.java:333-351 | Corrected converter: every input line is written, then the rules not yet present, in ascending order. |
| Attributes.CorrectedCoversEverySuffix | src/main/java/git/lfs/migrate/GitConverter.java:333-351 | Corrected converter: every tracked suffix has its rule in the output. |
| Attributes.CorrectedAddsOnlyMissingRules | src/main/java/git/lfs/migrate/GitConverter.java:342-351 | Corrected converter: the output starts with the whole input. A line gains exactly one occurrence if it is a missing rule, and none otherwise. |
| Attributes.CorrectedIdempotent | src/main/java/git/lfs/migrate/GitConverter.java:333-351 | Corrected converter: converting its output again changes nothing. |
| Text.EncodeChar | src/main/java/git/lfs/migrate/GitConverter.java:343 | A character encodes to its shortest UTF-8 form: 1 to 4 bytes by the size of its code, a lead byte announcing the length, continuation bytes `10xxxxxx` after it, and bytes that decode back to the character. |
| Text.Utf8OfAscii | src/main/java/git/lfs/migrate/GitConverter.java:264 | ASCII text encodes to one byte per character, equal to the character's code. |
| Lfs.DecimalRoundTrip | src/main/java/git/lfs/migrate/GitConverter.java:262 | The decimal form of the size reads back as the size. |
| Lfs.Pointer | src/main/java/git/lfs/migrate/GitConverter.java:259-262 | The pointer starts with the version line and `oid sha256:`, carries the hash right after, and ends with a newline. |
| Lfs.PointerRoundTrip | src/main/java/git/lfs/migrate/GitConverter.java:259-262 | A pointer parses back to exactly the hash and size it was written for. |
| Lfs.PointerIsAscii | src/main/java/git/lfs/migrate/GitConverter.java:259-264 | The pointer text is ASCII, so its UTF-8 blob has one byte per character. |
| Lfs.CachePath | src/main/java/git/lfs/migrate/GitConverter.java:251 | The cache path lies under `lfs/objects/` and ends, after two two-character directories, with the full hash. |
| Lfs.CachePathRoundTrip | src/main/java/git/lfs/migrate/GitConverter.java:251 | The cache path ends with the full hash, under directories named by hash digits 1-2 and 3-4. |
| Lfs.CachePathInjective | src/main/java/git/lfs/migrate/GitConverter.java:251 | Different hashes are cached in different files. |
| Lfs.TmpPath | src/main/java/git/lfs/migrate/GitConverter.java:235 | The staging file lies under `lfs/tmp/` and is named by the source blob's id. |
| Lfs.TmpPathInjective | src/main/java/git/lfs/migrate/GitConverter.java:235 | Different source blobs are staged in different files. |
| Lfs.TmpIsNotCache | src/main/java/git/lfs/migrate/GitConverter.java:235-254 | A staging file is never a cache file, so deleting it never touches the cache. |
| Lfs.Staged | src/main/java/git/lfs/migrate/GitConverter.java:253-257 | After staging, the files are the old ones without the staging file and with the cache file. The cache file keeps its content if it existed, and takes the staged content otherwise. |
| Lfs.StagingOutcome | src/main/java/git/lfs/migrate/GitConverter.java:253-257 | After staging, the cache file exists and the staging file is gone. An existing cache file keeps its content, and no other file changes. |
| Lfs.StagingIdempotent | src/main/java/git/lfs/migrate/GitConverter.java:253-257 | Staging the same content a second time leaves the files as the first staging did. |
| Lfs.ConvertLfs | src/main/java/git/lfs/migrate/GitConverter.java:227-264 | A missing id or a non-blob fails without changes. A failed upload fails with the staging file left written, no rename and no insert. A failed rename fails with only the staging file written. On success the staging step above has happened and the pointer blob for the hash and the blob's size is inserted; its id is returned. |
| Store.Repository.Insert | src/main/java/git/lfs/migrate/GitConverter.java:148 | Every `inserter.insert` (lines 115, 148, 202, 264, 352, 371): an object is inserted under its own hash, which is returned; nothing else changes. |
| Store.Repository.WriteFile | src/main/java/git/lfs/migrate/GitConverter.java:237-246 | The staging file is created or overwritten with the blob's bytes. |
| Store.Repository.DeleteFile | src/main/java/git/lfs/migrate/GitConverter.java:253-254 | The file is removed when present. |
| Store.Repository.RenameFile | src/main/java/git/lfs/migrate/GitConverter.java:255-257 | Success moves an existing file; failure changes nothing. |
| CopyTask.ConvertCopy | src/main/java/git/lfs/migrate/GitConverter.java:367-375 | The source id is returned. An object the destination already has is left alone; otherwise the source object is inserted unchanged, or MissingObject is raised. Over content-addressed stores the id is present afterwards, and content addressing is kept. |

## Left out

- The HTTP upload (`upload`, lines 269-319) and its JSON exchange: network I/O. Its outcome is the parameter `uploaded` of `Lfs.ConvertLfs`; which server answers lead to a failure is not modelled.
- SHA-256 and its hex encoding: the digest is a parameter, required to be 64 lower-case hex digits. Its relation to the blob's bytes is not modelled.
- Lfs.ConvertLfs: the streaming copy loop (lines 239-245) is one write of the whole blob, and `mkdirs` of the cache directory (line 252) is not modelled, because directories are not part of the file map.
- Store.Repository.RenameFile: besides a missing source file, the operating system may make `renameTo` fail for reasons the model does not see, so failure is left nondeterministic.
- The constructor (lines 44-54) and `flush` (lines 91-93): setup of JGit readers and inserters, and creation of the staging directory.
- Tree.ConvertTree: `ObjectChecker.checkTree` (line 201) and the binary `TreeFormatter` encoding are not modelled. A tree is its decoded entry list, and the sort order is proved instead.
- TreeOrder.SortEntries: `GitTreeEntry.compareTo` is not part of this model. Git's canonical order is used: names compared by character code, a directory's name as if it ended in '/'.
- Lex.LexLe: compares by Unicode scalar value. Java compares UTF-16 code units, which differs only between supplementary characters and characters from U+E000 to U+FFFF.
- Attributes.ConvertAttributes: decoding the prior file and splitting it with `BufferedReader.readLine` (on `\n`, `\r` and `\r\n`) is the parameter `readLines`; the model does not define it beyond requiring that an empty stream reads no line.
- The "Unsupported object type" exception for a `Simple` key (line 73) and the "Unknwon task key type" default (line 87) cannot be reached, because an object has one of four kinds and a key one of four types.
- A `.gitattributes` entry of any mode in a root tree, even a directory, gets the `Attribute` key, as the code does; the model keeps this.
- Concurrency and memoization in the scheduler that calls `depends()` and `convert`: the resolver is a total function given to each converter.
- Converter.Depends: the copy, attributes and LFS converters declare no dependencies (lines 222, 327, 362); this is folded into `Depends` rather than given separate members.
- Store.Repository.DeleteFile: always removes the file. `File.delete` at line 254 may fail, and its result is ignored; that failure, which would leave the staging file behind, is not modelled.
- TreeOrder.SortEntries: stability of `Collections.sort` is not stated. When two entries share a sort key their order would matter; git trees have distinct names, and `Tree.SortedUnique` shows the sorted tree is then unique.

## Findings

| source | as written | input that shows it | evidently intended | confidence | as-written member | corrected member |
|---|---|---|---|---|---|---|
| src/main/java/git/lfs/migrate/GitConverter.java:342-345 | A line equal to a pending rule is removed from the set and is not written, so the rule vanishes from the output. | Suffixes `[".bin"]`, existing `.gitattributes` holding only `*.bin\tfilter=lfs diff=lfs merge=lfs -crlf`: the new blob is empty. | Every input line is written, and only rules not already present are appended; converting twice changes nothing. | high, not executed | Attributes.PresentRuleIsDropped | Attributes.CorrectedIdempotent |
