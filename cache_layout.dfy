/**
  The versioned layout of the dependency cache: seven named cache
  directories, each with an optional parent entry and a version history.
  An entry's formatted version is its parent's formatted version, a dot,
  and its own latest version number; its key is `name-formattedVersion`;
  its path is the key placed under a base directory.

  The version NUMBERS recorded by `introducedIn(..)` and `incrementedIn(..)`
  are decided by a version-mapping builder that is not part of this model,
  so the histories are a parameter `h` of every operation; the predicate
  `MatchesSource` pins down everything the enum declaration itself fixes:
  how many records each history has and their release labels
  (`ReleasesMatch`), and every number that META_DATA passes to `changedTo`
  (`MetaDataNumbersMatch`).
 */
module CacheLayout {
  import opened Wrappers
  import opened Decimal

  /** The enum constants, in declaration order. */
  datatype Entry = Root | FileStore | MetaData | Resources | Transforms | TransformsMetaData | TransformsStore
  {
    /** The directory segment name given to the enum constructor: a non-empty word without a dash. */
    function Name(): (name: string)
      ensures |name| >= 1 && '-' !in name
    {
      match this
      case Root => "modules"
      case FileStore => "files"
      case MetaData => "metadata"
      case Resources => "resources"
      case Transforms => "transforms"
      case TransformsMetaData => "metadata"
      case TransformsStore => "files"
    }

    /** The parent constant given to the enum constructor (`null` is `None`). */
    function Parent(): (parent: Option<Entry>)
      ensures parent.Some? ==> parent.value != this && parent.value in {Root, Transforms}
    {
      match this
      case Root => None
      case FileStore => Some(Root)
      case MetaData => Some(Root)
      case Resources => Some(Root)
      case Transforms => None
      case TransformsMetaData => Some(Transforms)
      case TransformsStore => Some(Transforms)
    }

    /** The release named by each record of the version history, oldest first; every history starts with `introducedIn`. */
    function Releases(): (releases: seq<string>)
      ensures |releases| >= 1
    {
      match this
      case Root => ["1.9-rc-1", "1.9-rc-2"]
      case FileStore => ["1.9-rc-1"]
      case MetaData =>
        ["1.9-rc-2", "1.11-rc-1", "1.12-rc-1", "2.0-rc-1", "2.1-rc-3", "2.2-rc-1", "2.4-rc-1",
         "2.8-rc-1", "3.0-milestone-1", "3.1-rc-1", "3.2-rc-1", "4.2-rc-1", "4.3-rc-1",
         "4.4-rc-1", "4.5-rc-1", "4.5.1", "4.6-rc-1", "4.7-rc-1", "4.8-rc-1"]
      case Resources => ["1.9-rc-1"]
      case Transforms => ["3.5-rc-1"]
      case TransformsMetaData => ["3.5-rc-1"]
      case TransformsStore => ["3.5-rc-1"]
    }
  }

  /** A version history: (cache format version, release that introduced it), oldest first. */
  type History = seq<(nat, string)>

  /** The version history of every entry. */
  type Histories = Entry -> History

  /** A file-system path as its sequence of segments. */
  type Path = seq<string>

  /** The version numbers META_DATA passes to `changedTo`, in order. */
  const MetaDataChanges: seq<nat> :=
    [2, 6, 12, 13, 14, 15, 16, 17, 21, 23, 24, 31, 36, 48, 51, 53, 56, 58]

  predicate HasVersions(h: Histories) {
    forall e: Entry :: h(e) != []
  }

  predicate StrictlyIncreasing(vs: seq<nat>) {
    forall i, j :: 0 <= i < j < |vs| ==> vs[i] < vs[j]
  }

  function Numbers(hist: History): (vs: seq<nat>)
    ensures |vs| == |hist| && forall i :: 0 <= i < |hist| ==> vs[i] == hist[i].0
  {
    seq(|hist|, i requires 0 <= i < |hist| => hist[i].0)
  }

  /** Every history is non-empty and its version numbers strictly increase. */
  predicate WellFormed(h: Histories) {
    forall e: Entry :: h(e) != [] && StrictlyIncreasing(Numbers(h(e)))
  }

  /** Every history has one record per release the declaration names, labelled with that release. */
  predicate ReleasesMatch(h: Histories) {
    && (forall e: Entry :: |h(e)| == |e.Releases()|)
    && (forall e: Entry, i :: 0 <= i < |h(e)| && i < |e.Releases()| ==> h(e)[i].1 == e.Releases()[i])
  }

  /** META_DATA's records after the first carry the numbers passed to `changedTo`. */
  predicate MetaDataNumbersMatch(h: Histories) {
    && |h(MetaData)| == |MetaDataChanges| + 1
    && (forall i :: 0 <= i < |MetaDataChanges| ==> h(MetaData)[i + 1].0 == MetaDataChanges[i])
  }

  /** The histories agree with the enum declaration in everything it states literally. */
  predicate MatchesSource(h: Histories) {
    ReleasesMatch(h) && MetaDataNumbersMatch(h)
  }

  /** The entry's effective version: the number of the last record. */
  function Latest(hist: History): (latest: nat)
    requires hist != []
    ensures exists i :: 0 <= i < |hist| && hist[i].0 == latest
    ensures StrictlyIncreasing(Numbers(hist)) ==> forall i :: 0 <= i < |hist| ==> hist[i].0 <= latest
  {
    hist[|hist| - 1].0
  }

  /** The entries from the top of the parent chain down to `e`. */
  function Chain(e: Entry): (c: seq<Entry>)
    ensures |c| >= 1 && c[|c| - 1] == e
    ensures e.Parent() == None <==> |c| == 1
    ensures c[0].Parent() == None
    ensures forall i :: 0 < i < |c| ==> c[i].Parent() == Some(c[i - 1])
    decreases e.Parent() != None
  {
    match e.Parent()
    case None => [e]
    case Some(p) => Chain(p) + [e]
  }

  /** How many ancestors `e` has. */
  function Depth(e: Entry): nat {
    |Chain(e)| - 1
  }

  /** The effective versions along the parent chain, top first. */
  function ChainVersions(h: Histories, e: Entry): (vs: seq<nat>)
    requires HasVersions(h)
    ensures |vs| == |Chain(e)|
    ensures forall i :: 0 <= i < |vs| ==> vs[i] == Latest(h(Chain(e)[i]))
    decreases e.Parent() != None
  {
    match e.Parent()
    case None => [Latest(h(e))]
    case Some(p) => ChainVersions(h, p) + [Latest(h(e))]
  }

  /** `getFormattedVersion()`: dotted decimal, parent's part first. */
  function FormattedVersion(h: Histories, e: Entry): (v: string)
    requires HasVersions(h)
    ensures |v| >= 1 && v[0] != '.' && v[|v| - 1] != '.'
    ensures forall i :: 0 <= i < |v| ==> IsDigit(v[i]) || v[i] == '.'
    decreases e.Parent() != None
  {
    match e.Parent()
    case None => NatToString(Latest(h(e)))
    case Some(p) => FormattedVersion(h, p) + ['.'] + NatToString(Latest(h(e)))
  }

  /** `getKey()`: the name, a dash, the formatted version. */
  function Key(h: Histories, e: Entry): (k: string)
    requires HasVersions(h)
    ensures |k| > |e.Name()| + 1 && k[..|e.Name()| + 1] == e.Name() + "-"
  {
    e.Name() + "-" + FormattedVersion(h, e)
  }

  /** The key's dash is its only one: splitting on it gives the name and the formatted version. */
  lemma KeySplitsAtDash(h: Histories, e: Entry)
    requires HasVersions(h)
    ensures Split(Key(h, e), '-') == [e.Name(), FormattedVersion(h, e)]
  {
    var v := FormattedVersion(h, e);
    NameHasNoDash(e);
    SplitAfterPiece(e.Name(), '-', v);
    SplitNoSeparator(v, '-');
  }

  /** `getPath(parentDir)`: `parentDir` with one more segment, the key. */
  function GetPath(h: Histories, e: Entry, parentDir: Path): (p: Path)
    requires HasVersions(h)
    ensures |p| == |parentDir| + 1 && p[..|parentDir|] == parentDir
    ensures p[|parentDir|] == Key(h, e)
  {
    parentDir + [Key(h, e)]
  }

  lemma NameHasNoDash(e: Entry)
    ensures '-' !in e.Name()
  {
  }

  /** The decimal strings of a sequence of numbers. */
  function Rendered(vs: seq<nat>): (parts: seq<string>)
    ensures |parts| == |vs|
    ensures forall i :: 0 <= i < |vs| ==> parts[i] == NatToString(vs[i])
  {
    seq(|vs|, i requires 0 <= i < |vs| => NatToString(vs[i]))
  }

  /** Reads every part as a decimal number; `None` if one of them is not one. */
  function ParseVersions(parts: seq<string>): (r: Option<seq<nat>>)
    ensures r.Some? ==> |r.value| == |parts|
  {
    if parts == [] then Some([])
    else match (ParseDecimal(parts[0]), ParseVersions(parts[1..]))
      case (Some(v), Some(vs)) => Some([v] + vs)
      case _ => None
  }

  /**
    Reads a cache directory name `name-v1.v2...vn` back into the name and
    the chain of version numbers; `None` when it does not have that shape.
   */
  function ParseKey(k: string): Option<(string, seq<nat>)> {
    var parts := Split(k, '-');
    if |parts| != 2 then None
    else match ParseVersions(Split(parts[1], '.'))
      case None => None
      case Some(vs) => Some((parts[0], vs))
  }

  lemma {:induction false} JoinSnoc(parts: seq<string>, sep: char, last: string)
    requires |parts| >= 1
    ensures Join(parts + [last], sep) == Join(parts, sep) + [sep] + last
  {
    if |parts| > 1 {
      assert (parts + [last])[1..] == parts[1..] + [last];
      JoinSnoc(parts[1..], sep, last);
    }
  }

  lemma {:induction false} ParseRendered(vs: seq<nat>)
    ensures ParseVersions(Rendered(vs)) == Some(vs)
  {
    if vs != [] {
      assert Rendered(vs)[1..] == Rendered(vs[1..]);
      ParseNatToString(vs[0]);
      ParseRendered(vs[1..]);
      assert [vs[0]] + vs[1..] == vs;
    }
  }

  /** The formatted version is the chain of effective versions joined with dots. */
  lemma {:induction false} FormattedVersionJoinsChain(h: Histories, e: Entry)
    requires HasVersions(h)
    ensures FormattedVersion(h, e) == Join(Rendered(ChainVersions(h, e)), '.')
    decreases e.Parent() != None
  {
    match e.Parent()
    case None =>
    case Some(p) =>
      var above := ChainVersions(h, p);
      FormattedVersionJoinsChain(h, p);
      assert Rendered(above + [Latest(h(e))]) == Rendered(above) + [NatToString(Latest(h(e)))];
      JoinSnoc(Rendered(above), '.', NatToString(Latest(h(e))));
  }

  /** A key reads back as the entry's name and the versions along its parent chain. */
  lemma KeyRoundTrip(h: Histories, e: Entry)
    requires HasVersions(h)
    ensures ParseKey(Key(h, e)) == Some((e.Name(), ChainVersions(h, e)))
  {
    var vs := ChainVersions(h, e);
    KeySplitsAtDash(h, e);
    FormattedVersionJoinsChain(h, e);
    SplitJoin(Rendered(vs), '.');
    ParseRendered(vs);
  }

  /** Two version configurations give an entry the same key exactly when they agree along its parent chain. */
  lemma SameKeyIffSameChainVersions(h1: Histories, h2: Histories, e: Entry)
    requires HasVersions(h1) && HasVersions(h2)
    ensures Key(h1, e) == Key(h2, e) <==> ChainVersions(h1, e) == ChainVersions(h2, e)
  {
    KeyRoundTrip(h1, e);
    KeyRoundTrip(h2, e);
    FormattedVersionJoinsChain(h1, e);
    FormattedVersionJoinsChain(h2, e);
  }

  /** Changing the latest version of any entry on the parent chain (the entry itself included) changes the key. */
  lemma AncestorBumpChangesKey(h1: Histories, h2: Histories, e: Entry, a: Entry)
    requires HasVersions(h1) && HasVersions(h2)
    requires a in Chain(e)
    requires Latest(h1(a)) != Latest(h2(a))
    ensures Key(h1, e) != Key(h2, e)
  {
    var i :| 0 <= i < |Chain(e)| && Chain(e)[i] == a;
    assert ChainVersions(h1, e)[i] != ChainVersions(h2, e)[i];
    SameKeyIffSameChainVersions(h1, h2, e);
  }

  /**
    Changing only ROOT's latest version changes the keys of ROOT, FILE_STORE,
    META_DATA and RESOURCES and of no other entry.
   */
  lemma RootBumpChangesExactlyItsSubtree(h1: Histories, h2: Histories, e: Entry)
    requires HasVersions(h1) && HasVersions(h2)
    requires forall x: Entry :: x != Root ==> h1(x) == h2(x)
    requires Latest(h1(Root)) != Latest(h2(Root))
    ensures Key(h1, e) != Key(h2, e) <==> e in {Root, FileStore, MetaData, Resources}
  {
    if e in {Root, FileStore, MetaData, Resources} {
      AncestorBumpChangesKey(h1, h2, e, Root);
    } else {
      var c := Chain(e);
      assert Root !in c;
      assert forall i :: 0 <= i < |c| ==> h1(c[i]) == h2(c[i]);
      assert ChainVersions(h1, e) == ChainVersions(h2, e);
      SameKeyIffSameChainVersions(h1, h2, e);
    }
  }

  /** Number of occurrences of `c` in `s`. */
  function Occurrences(s: string, c: char): nat {
    if s == [] then 0 else Occurrences(s[..|s| - 1], c) + (if s[|s| - 1] == c then 1 else 0)
  }

  lemma {:induction false} OccurrencesAppend(a: string, b: string, c: char)
    ensures Occurrences(a + b, c) == Occurrences(a, c) + Occurrences(b, c)
  {
    if b == [] {
      assert a + b == a;
    } else {
      assert (a + b)[..|a + b| - 1] == a + b[..|b| - 1];
      OccurrencesAppend(a, b[..|b| - 1], c);
    }
  }

  lemma {:induction false} OccurrencesAbsent(s: string, c: char)
    requires c !in s
    ensures Occurrences(s, c) == 0
  {
    if s != [] {
      OccurrencesAbsent(s[..|s| - 1], c);
    }
  }

  /** The formatted version has one dot per ancestor. */
  lemma {:induction false} DotsCountAncestors(h: Histories, e: Entry)
    requires HasVersions(h)
    ensures Occurrences(FormattedVersion(h, e), '.') == Depth(e)
    decreases e.Parent() != None
  {
    var own := NatToString(Latest(h(e)));
    OccurrencesAbsent(own, '.');
    match e.Parent()
    case None =>
    case Some(p) =>
      DotsCountAncestors(h, p);
      OccurrencesAppend(FormattedVersion(h, p) + ['.'], own, '.');
      OccurrencesAppend(FormattedVersion(h, p), ['.'], '.');
  }

  /** ROOT and TRANSFORMS have no parent; every other entry has exactly one ancestor. */
  lemma DepthOfEntries(e: Entry)
    ensures Depth(e) == 0 <==> e in {Root, Transforms}
    ensures Depth(e) <= 1
  {
  }

  /** An entry without a parent formats to its own latest version alone. */
  lemma TopEntryFormattedVersion(h: Histories, e: Entry)
    requires HasVersions(h)
    requires e.Parent() == None
    ensures FormattedVersion(h, e) == NatToString(Latest(h(e)))
    ensures ParseDecimal(FormattedVersion(h, e)) == Some(Latest(h(e)))
  {
    ParseNatToString(Latest(h(e)));
  }

  /** A child formats to its parent's formatted version, a dot, and its own latest version. */
  lemma ChildFormattedVersion(h: Histories, e: Entry, p: Entry)
    requires HasVersions(h)
    requires e.Parent() == Some(p)
    ensures FormattedVersion(h, e) == FormattedVersion(h, p) + "." + NatToString(Latest(h(e)))
    ensures Split(FormattedVersion(h, e), '.')[0] == NatToString(Latest(h(p)))
  {
    assert p.Parent() == None;
    var above := NatToString(Latest(h(p)));
    assert FormattedVersion(h, p) == above;
    SplitAfterPiece(above, '.', NatToString(Latest(h(e))));
  }

  /** META_DATA's `changedTo` numbers strictly increase and end at 58. */
  lemma MetaDataChangesIncrease()
    ensures StrictlyIncreasing(MetaDataChanges)
    ensures MetaDataChanges[|MetaDataChanges| - 1] == 58
  {
  }

  /** META_DATA's last `changedTo` number, 58, is its latest version. */
  lemma MetaDataLatest(h: Histories)
    requires MetaDataNumbersMatch(h)
    ensures h(MetaData) != [] && Latest(h(MetaData)) == 58
  {
    assert h(MetaData)[|MetaDataChanges|].0 == MetaDataChanges[|MetaDataChanges| - 1];
  }

  /**
    With META_DATA's numbers as the enum declares them, its latest version is
    58 and its key is "metadata-", ROOT's formatted version, ".58".
   */
  lemma MetaDataKey(h: Histories)
    requires HasVersions(h) && MetaDataNumbersMatch(h)
    ensures Latest(h(MetaData)) == 58
    ensures Key(h, MetaData) == "metadata-" + FormattedVersion(h, Root) + ".58"
  {
    MetaDataLatest(h);
    var root := FormattedVersion(h, Root);
    assert NatToString(58) == "58";
    assert FormattedVersion(h, MetaData) == root + ".58";
  }

  /** With ROOT at version 9, META_DATA's directory is "metadata-9.58". */
  lemma MetaDataKeyWithRootAtNine(h: Histories)
    requires HasVersions(h) && MetaDataNumbersMatch(h)
    requires Latest(h(Root)) == 9
    ensures Key(h, MetaData) == "metadata-9.58"
  {
    MetaDataKey(h);
    assert FormattedVersion(h, Root) == NatToString(9) == "9";
    assert "metadata-" + "9" + ".58" == "metadata-9.58";
  }

  /** A strictly increasing META_DATA history with the declared numbers starts below 2. */
  lemma MetaDataStartsBelowFirstChange(h: Histories)
    requires WellFormed(h) && MetaDataNumbersMatch(h)
    ensures h(MetaData)[0].0 < 2
  {
    assert h(MetaData)[1].0 == MetaDataChanges[0];
    assert Numbers(h(MetaData))[0] < Numbers(h(MetaData))[1];
  }

  /** META_DATA's latest record is version 58, introduced in release 4.8-rc-1. */
  lemma MetaDataLatestRecord(h: Histories)
    requires MatchesSource(h)
    ensures h(MetaData) != [] && h(MetaData)[|h(MetaData)| - 1] == (58, "4.8-rc-1")
  {
    MetaDataLatest(h);
    assert |MetaData.Releases()| == 19 && MetaData.Releases()[18] == "4.8-rc-1";
  }

  /** ROOT was introduced and then incremented once, so its latest version exceeds its first. */
  lemma RootIncrementedOnce(h: Histories)
    requires WellFormed(h) && MatchesSource(h)
    ensures |h(Root)| == 2 && h(Root)[0].1 == "1.9-rc-1" && h(Root)[1].1 == "1.9-rc-2"
    ensures Latest(h(Root)) > h(Root)[0].0
  {
    assert |Root.Releases()| == 2;
    assert Numbers(h(Root))[0] < Numbers(h(Root))[1];
  }

  /** With the declared `changedTo` numbers and a first version below 2, META_DATA's history strictly increases. */
  lemma MetaDataHistoryIncreasing(h: Histories)
    requires MetaDataNumbersMatch(h) && h(MetaData)[0].0 < 2
    ensures StrictlyIncreasing(Numbers(h(MetaData)))
  {
    var vs := Numbers(h(MetaData));
    MetaDataChangesIncrease();
    forall i, j | 0 <= i < j < |vs| ensures vs[i] < vs[j] {
      assert vs[j] == MetaDataChanges[j - 1];
      if i > 0 {
        assert vs[i] == MetaDataChanges[i - 1];
      } else {
        assert MetaDataChanges[0] <= MetaDataChanges[j - 1];
      }
    }
  }
}
