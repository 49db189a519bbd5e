# Cache layout naming and directory snapshot traversal

This project models two small pieces of Gradle's incremental-build machinery
and proves properties about them in Dafny.

**`CacheLayout`** (module `CacheLayout`, with `Decimal` and `Wrappers`). This is
the enum of seven dependency-cache directories. The entries are ROOT,
FILE_STORE, META_DATA, RESOURCES, TRANSFORMS, TRANSFORMS_META_DATA and
TRANSFORMS_STORE. Each one has a directory name, an optional parent and a
version history:

- Its formatted version is the parent's formatted version, then `.`, then its
  own latest version in decimal. An entry without a parent uses its own latest
  version alone.
- Its key is `name-formattedVersion`.
- Its path is the base directory extended by the key.

The enum is the datatype `Entry`. Its `Name`, `Parent` and `Releases` members
reproduce the enum declaration. A version history is a `seq<(nat, string)>`
whose last record is the latest. The numbers that `introducedIn`/`incrementedIn`
assign come from a builder that is not part of this model. So every operation
takes the histories as a parameter `h`. `MatchesSource(h)` states everything
the declaration fixes literally:

- how many records each history has;
- the release named by each record;
- the numbers META_DATA passes to `changedTo`, ending at 58.

A path is a sequence of segments.

**Directory snapshot traversal** (modules `Snapshot` and `Visitor`). A snapshot
tree is the datatype `Node`: a directory with its children in stored order, or
a leaf. The visitor's answer to `preVisitDirectory(path, name)` is a function
`Decision`. `Trace(n, descend)` is the sequence of visitor calls made while `n`
accepts the visitor: `Enter(path, name)`, `Leave` or `Leaf(node)`.
`Visitor.Accept` is the imperative version. It calls a recording visitor object,
and its postcondition says the recorded calls are exactly `Trace`.

The model follows the code where it differs from some descriptions of this
protocol. When `preVisitDirectory` returns false, `accept` returns at once
(AbstractPhysicalDirectorySnapshot.java:51-53). There is no
`postVisitDirectory` call for that directory. Some descriptions say a leave
event follows a refusal. Here the balance property is stated over the
*accepted* `preVisitDirectory` calls.

## Model

| member | source | states |
|---|---|---|
| `Decimal.NatToString` | subprojects/dependency-management/src/main/java/org/gradle/api/internal/artifacts/ivyservice/CacheLayout.java:86 | `String.valueOf` of a version number: non-empty, all decimal digits, no leading zero |
| `Decimal.ParseNatToString` | subprojects/dependency-management/src/main/java/org/gradle/api/internal/artifacts/ivyservice/CacheLayout.java:86 | reading the decimal rendering of `n` gives back `n` |
| `Decimal.NatToStringInjective` | subprojects/dependency-management/src/main/java/org/gradle/api/internal/artifacts/ivyservice/CacheLayout.java:86 | two numbers have the same rendering iff they are equal |
| `CacheLayout.Entry.Name` | subprojects/dependency-management/src/main/java/org/gradle/api/internal/artifacts/ivyservice/CacheLayout.java:27-60 | every directory name declared in the enum is non-empty and contains no `-`, so the dash the key adds is the key's only one |
| `CacheLayout.Entry.Parent` | subprojects/dependency-management/src/main/java/org/gradle/api/internal/artifacts/ivyservice/CacheLayout.java:27-60 | a declared parent is never the entry itself and is always ROOT or TRANSFORMS, the two entries declared with a `null` parent |
| `CacheLayout.Entry.Releases` | subprojects/dependency-management/src/main/java/org/gradle/api/internal/artifacts/ivyservice/CacheLayout.java:27-60 | every entry's version mapping starts with an `introducedIn` release, so its history has at least one record |
| `CacheLayout.Latest` | subprojects/dependency-management/src/main/java/org/gradle/api/internal/artifacts/ivyservice/CacheLayout.java:86 | `getLatestVersion()` is the number of one of the history's records, and in a strictly increasing history it is the largest of them |
| `CacheLayout.Chain` | subprojects/dependency-management/src/main/java/org/gradle/api/internal/artifacts/ivyservice/CacheLayout.java:27-60 | the parent chain starts at an entry with a `null` parent, each later entry's parent is the one before it, and it ends at the entry itself; it is the entry alone iff the parent is `null` |
| `CacheLayout.ChainVersions` | subprojects/dependency-management/src/main/java/org/gradle/api/internal/artifacts/ivyservice/CacheLayout.java:84-89 | the i-th number is the latest version of the i-th entry of the parent chain |
| `CacheLayout.FormattedVersion` | subprojects/dependency-management/src/main/java/org/gradle/api/internal/artifacts/ivyservice/CacheLayout.java:84-89 | the formatted version is non-empty, made of digits and dots, and neither starts nor ends with a dot |
| `CacheLayout.Key` | subprojects/dependency-management/src/main/java/org/gradle/api/internal/artifacts/ivyservice/CacheLayout.java:76-82 | the key starts with the entry's name followed by `-`, and something follows the dash |
| `CacheLayout.KeySplitsAtDash` | subprojects/dependency-management/src/main/java/org/gradle/api/internal/artifacts/ivyservice/CacheLayout.java:76-82 | the key's dash is its only one: splitting the key on `-` gives exactly the name and the formatted version |
| `CacheLayout.GetPath` | subprojects/dependency-management/src/main/java/org/gradle/api/internal/artifacts/ivyservice/CacheLayout.java:95-97 | the path is `parentDir` extended by exactly one segment, which is the key; as a function of its arguments, two calls with the same base agree |
| `CacheLayout.TopEntryFormattedVersion` | subprojects/dependency-management/src/main/java/org/gradle/api/internal/artifacts/ivyservice/CacheLayout.java:85-87 | an entry with a `null` parent formats to the decimal string of its own latest version, which parses back to that version |
| `CacheLayout.ChildFormattedVersion` | subprojects/dependency-management/src/main/java/org/gradle/api/internal/artifacts/ivyservice/CacheLayout.java:88 | a child formats to the parent's formatted version, `.`, and its own latest version; its first dot-separated part is the parent's version |
| `CacheLayout.FormattedVersionJoinsChain` | subprojects/dependency-management/src/main/java/org/gradle/api/internal/artifacts/ivyservice/CacheLayout.java:84-89 | the formatted version is the latest versions along the parent chain, top first, joined with dots |
| `CacheLayout.KeyRoundTrip` | subprojects/dependency-management/src/main/java/org/gradle/api/internal/artifacts/ivyservice/CacheLayout.java:76-89 | a key reads back as the entry's name and the versions along its parent chain |
| `CacheLayout.SameKeyIffSameChainVersions` | subprojects/dependency-management/src/main/java/org/gradle/api/internal/artifacts/ivyservice/CacheLayout.java:76-89 | two version configurations give an entry the same key iff they agree on every latest version along its parent chain |
| `CacheLayout.AncestorBumpChangesKey` | subprojects/dependency-management/src/main/java/org/gradle/api/internal/artifacts/ivyservice/CacheLayout.java:84-89 | changing the latest version of the entry or of its parent changes the entry's key |
| `CacheLayout.RootBumpChangesExactlyItsSubtree` | subprojects/dependency-management/src/main/java/org/gradle/api/internal/artifacts/ivyservice/CacheLayout.java:27-60 | changing only ROOT's latest version changes the keys of ROOT, FILE_STORE, META_DATA and RESOURCES, and of no TRANSFORMS entry |
| `CacheLayout.DotsCountAncestors` | subprojects/dependency-management/src/main/java/org/gradle/api/internal/artifacts/ivyservice/CacheLayout.java:84-89 | the number of dots in the formatted version equals the number of ancestors |
| `CacheLayout.DepthOfEntries` | subprojects/dependency-management/src/main/java/org/gradle/api/internal/artifacts/ivyservice/CacheLayout.java:27-60 | ROOT and TRANSFORMS have depth 0; every other entry has depth 1 |
| `CacheLayout.MetaDataChangesIncrease` | subprojects/dependency-management/src/main/java/org/gradle/api/internal/artifacts/ivyservice/CacheLayout.java:32-52 | META_DATA's `changedTo` numbers strictly increase and the last one is 58 |
| `CacheLayout.MetaDataHistoryIncreasing` | subprojects/dependency-management/src/main/java/org/gradle/api/internal/artifacts/ivyservice/CacheLayout.java:32-52 | conversely, a META_DATA history with the declared `changedTo` numbers whose first version is below 2 is strictly increasing |
| `CacheLayout.MetaDataStartsBelowFirstChange` | subprojects/dependency-management/src/main/java/org/gradle/api/internal/artifacts/ivyservice/CacheLayout.java:34-35 | in a strictly increasing META_DATA history with the declared numbers, the first version is below 2 |
| `CacheLayout.MetaDataLatest` | subprojects/dependency-management/src/main/java/org/gradle/api/internal/artifacts/ivyservice/CacheLayout.java:32-52 | when META_DATA's numbers are the declared ones, its latest version is 58 |
| `CacheLayout.MetaDataLatestRecord` | subprojects/dependency-management/src/main/java/org/gradle/api/internal/artifacts/ivyservice/CacheLayout.java:52 | for histories matching the declaration, META_DATA's latest record is version 58 from release 4.8-rc-1 |
| `CacheLayout.RootIncrementedOnce` | subprojects/dependency-management/src/main/java/org/gradle/api/internal/artifacts/ivyservice/CacheLayout.java:27 | for valid histories matching the declaration, ROOT has two records, from 1.9-rc-1 and 1.9-rc-2, and its latest version exceeds its first |
| `CacheLayout.MetaDataKey` | subprojects/dependency-management/src/main/java/org/gradle/api/internal/artifacts/ivyservice/CacheLayout.java:32-52 | when META_DATA's numbers are the declared ones, its latest version is 58 and its key is `"metadata-"` + ROOT's formatted version + `".58"` |
| `CacheLayout.MetaDataKeyWithRootAtNine` | subprojects/dependency-management/src/main/java/org/gradle/api/internal/artifacts/ivyservice/CacheLayout.java:76-89 | with ROOT's latest version at 9, META_DATA's key is `metadata-9.58` |
| `Snapshot.NewDirectorySnapshot` | subprojects/core/src/main/java/org/gradle/api/internal/changedetection/state/mirror/AbstractPhysicalDirectorySnapshot.java:27-40 | `getPath()` and `getName()` return the constructor's arguments, and the type is `Directory` |
| `Snapshot.GetType` | subprojects/core/src/main/java/org/gradle/api/internal/changedetection/state/mirror/AbstractPhysicalDirectorySnapshot.java:42-45 | the type is `Directory` iff the node is a directory snapshot, whatever its path, name and children; a leaf is a regular file or a missing file |
| `Snapshot.Trace` | subprojects/core/src/main/java/org/gradle/api/internal/changedetection/state/mirror/AbstractPhysicalDirectorySnapshot.java:50-58 | every `accept` makes at least one call, and the first one announces the node itself: `preVisitDirectory` with its path and name for a directory, the leaf's own visit for a leaf |
| `Snapshot.DirectoryStartsWithEnter` | subprojects/core/src/main/java/org/gradle/api/internal/changedetection/state/mirror/AbstractPhysicalDirectorySnapshot.java:51 | a directory's first call is `preVisitDirectory` with its own path and name |
| `Snapshot.PreVisitCalledOnce` | subprojects/core/src/main/java/org/gradle/api/internal/changedetection/state/mirror/AbstractPhysicalDirectorySnapshot.java:51 | in a well-pathed tree, no later call in the directory's traversal is a `preVisitDirectory` with the directory's own path |
| `Snapshot.RefusalEndsTraversal` | subprojects/core/src/main/java/org/gradle/api/internal/changedetection/state/mirror/AbstractPhysicalDirectorySnapshot.java:51-53 | on a refusal the directory's whole trace is the one `preVisitDirectory` call: no child and no `postVisitDirectory` |
| `Snapshot.DescentVisitsChildrenInOrder` | subprojects/core/src/main/java/org/gradle/api/internal/changedetection/state/mirror/AbstractPhysicalDirectorySnapshot.java:54-57 | when descending, the children's traces follow in stored order and one `postVisitDirectory` is the last call |
| `Snapshot.TraceWellNested` | subprojects/core/src/main/java/org/gradle/api/internal/changedetection/state/mirror/AbstractPhysicalDirectorySnapshot.java:51-57 | balance: the number of `postVisitDirectory` calls equals the number of accepted `preVisitDirectory` calls; no prefix closes more than it opened; a descended directory stays open until its own last call |
| `Snapshot.TraceAnnouncesReachedNodes` | subprojects/core/src/main/java/org/gradle/api/internal/changedetection/state/mirror/AbstractPhysicalDirectorySnapshot.java:50-58 | apart from `postVisitDirectory`, the calls announce exactly the reached nodes, once each, in depth-first order |
| `Snapshot.AlwaysDescendingReachesEveryNode` | subprojects/core/src/main/java/org/gradle/api/internal/changedetection/state/mirror/AbstractPhysicalDirectorySnapshot.java:54-56 | a visitor that never refuses reaches every node of the tree (each node of the tree is among the reached ones), and it reaches exactly as many nodes as the tree has |
| `Snapshot.EventsStayUnder` | subprojects/core/src/main/java/org/gradle/api/internal/changedetection/state/mirror/AbstractPhysicalDirectorySnapshot.java:50-58 | in a well-pathed tree, every call made by a node's traversal concerns that node or a node below it |
| `Snapshot.NothingBelowRefused` | subprojects/core/src/main/java/org/gradle/api/internal/changedetection/state/mirror/AbstractPhysicalDirectorySnapshot.java:51-55 | in a well-pathed tree, once `preVisitDirectory(p, name)` answers false, no call concerns a node strictly below `p` |
| `Snapshot.ExampleAlwaysDescending` | subprojects/core/src/main/java/org/gradle/api/internal/changedetection/state/mirror/AbstractPhysicalDirectorySnapshot.java:50-58 | for root{a.txt, sub{b.txt}}, always descending gives Enter(root), Leaf(a.txt), Enter(sub), Leaf(b.txt), Leave, Leave |
| `Snapshot.ExampleRefusingSub` | subprojects/core/src/main/java/org/gradle/api/internal/changedetection/state/mirror/AbstractPhysicalDirectorySnapshot.java:50-58 | refusing `sub` gives Enter(root), Leaf(a.txt), Enter(sub), Leave; b.txt never appears and only root is closed |
| `Visitor.Accept` | subprojects/core/src/main/java/org/gradle/api/internal/changedetection/state/mirror/AbstractPhysicalDirectorySnapshot.java:50-58 | `accept` with its early return, loop over the children and trailing `postVisitDirectory` makes exactly the calls of `Trace` |
| `Visitor.AcceptChildren` | subprojects/core/src/main/java/org/gradle/api/internal/changedetection/state/mirror/AbstractPhysicalDirectorySnapshot.java:54-56 | the loop over `getChildren()`: the children accept the visitor in stored order, making exactly the calls of `ChildrenTrace` |
| `Visitor.RecordingVisitor.PreVisitDirectory` | subprojects/core/src/main/java/org/gradle/api/internal/changedetection/state/mirror/AbstractPhysicalDirectorySnapshot.java:51 | `preVisitDirectory(path, name)` records one `Enter(path, name)` call and answers with the visitor's decision for that path and name |
| `Visitor.RecordingVisitor.VisitLeaf` | subprojects/core/src/main/java/org/gradle/api/internal/changedetection/state/mirror/AbstractPhysicalDirectorySnapshot.java:54-56 | a leaf child's `accept` records exactly one `Leaf` call for that leaf |
| `Visitor.RecordingVisitor.PostVisitDirectory` | subprojects/core/src/main/java/org/gradle/api/internal/changedetection/state/mirror/AbstractPhysicalDirectorySnapshot.java:57 | `postVisitDirectory()` records exactly one `Leave` call |

## Left out

- `CacheLayout.getVersion()` is not modelled. It depends on `VersionNumber.parse`, which is not part of this model.
- The version-mapping builder (`introducedIn`, `incrementedIn`, `changedTo`, `build`, `getLatestVersion`) is not part of this model. Each history is given data, with one record per builder call, and its latest version is its last record. The numbers that `introducedIn`/`incrementedIn` assign are left open, so no concrete value is claimed for ROOT or TRANSFORMS.
- `StrictlyIncreasing` and `WellFormed` state what a valid history is. CacheLayout.java does not check this; the check belongs to the version-mapping builder, which is not part of this model. So the model takes them as hypotheses where a lemma needs them.
- KeySplitsAtDash, KeyRoundTrip: versions are `nat`, while Java's `getLatestVersion()` returns an `int`. A negative version would render with a leading `-` and the key would then hold a second dash. These lemmas rely on the version-mapping builder producing non-negative numbers, which is not part of this model.
- `java.io.File` and `java.nio.file.Path` are modelled as sequences of segments. `new File(parentDir, key)` appends one segment. Normalisation and separators are not modelled.
- The leaf snapshot classes (regular file, missing file), their `accept`, and the concrete `getChildren()` implementations are not part of this model. A leaf produces one `Leaf` event, and the children are the stored sequence.
- The real `HierarchicalFileTreeVisitor` implementations are not part of this model. The visitor is a recording object whose `preVisitDirectory` answer depends only on `(path, name)`. A visitor callback that throws, and so aborts the traversal, is not modelled.
- Content hashing, walking the file system and building snapshots are I/O done by external collaborators. They are left out.
- Concurrent traversal is left out. Nothing here depends on it.
