/** migrations.All: pairing up and down scripts found in a directory, in any directory order. */
module MigrationList {
  import opened Common
  import Lex

  datatype Entry = Entry(name: string, isDir: bool, content: string)

  datatype Migration = Migration(version: string, up: string, down: string)

  datatype Listing = Migrations(all: seq<Migration>) | MissingHalf(version: string)

  const UP := "_up.sql"
  const DOWN := "_down.sql"

  predicate HasSuffix(s: string, suffix: string) {
    |s| >= |suffix| && s[|s| - |suffix|..] == suffix
  }

  function TrimSuffix(s: string, suffix: string): string
    requires HasSuffix(s, suffix)
  {
    s[..|s| - |suffix|]
  }

  lemma SuffixExactly(s: string, suffix: string, stem: string)
    ensures HasSuffix(s, suffix) && TrimSuffix(s, suffix) == stem <==> s == stem + suffix
  {
    if HasSuffix(s, suffix) {
      assert s == TrimSuffix(s, suffix) + suffix;
    }
  }

  lemma NotBoth(s: string)
    ensures !(HasSuffix(s, UP) && HasSuffix(s, DOWN))
  {
    assert HasSuffix(s, UP) ==> s[|s| - 7..][0] == '_';
    assert HasSuffix(s, DOWN) ==> s[|s| - 9..][2] == 'o';
  }

  function Half(byVersion: map<string, Migration>, version: string): Migration {
    if version in byVersion then byVersion[version] else Migration(version, "", "")
  }

  function AddEntry(byVersion: map<string, Migration>, e: Entry): map<string, Migration> {
    if e.isDir then byVersion
    else if HasSuffix(e.name, UP) then
      var version := TrimSuffix(e.name, UP);
      byVersion[version := Half(byVersion, version).(up := e.content)]
    else if HasSuffix(e.name, DOWN) then
      var version := TrimSuffix(e.name, DOWN);
      byVersion[version := Half(byVersion, version).(down := e.content)]
    else byVersion
  }

  function Collect(entries: seq<Entry>): map<string, Migration> {
    if entries == [] then map[] else AddEntry(Collect(entries[..|entries| - 1]), entries[|entries| - 1])
  }

  /** The content of the (last) file of that name. */
  function FileContent(entries: seq<Entry>, name: string): Option<string> {
    if entries == [] then None
    else
      var last := entries[|entries| - 1];
      if !last.isDir && last.name == name then Some(last.content) else FileContent(entries[..|entries| - 1], name)
  }

  function TextOf(content: Option<string>): string {
    if content.Some? then content.value else ""
  }

  /** A version is collected exactly if one of its two files exists, each half being that file's text. */
  lemma {:induction false} CollectExactly(entries: seq<Entry>, version: string)
    ensures var up, down := FileContent(entries, version + UP), FileContent(entries, version + DOWN);
      Lookup(Collect(entries), version)
      == if up.None? && down.None? then None else Some(Migration(version, TextOf(up), TextOf(down)))
  {
    if entries != [] {
      var last := entries[|entries| - 1];
      CollectExactly(entries[..|entries| - 1], version);
      SuffixExactly(last.name, UP, version);
      SuffixExactly(last.name, DOWN, version);
      NotBoth(last.name);
    }
  }

  /** The pairing by literal file names: NAME_up.sql and NAME_down.sql are the two halves of version NAME. */
  lemma HalvesByName(entries: seq<Entry>, version: string)
    ensures var up, down := FileContent(entries, version + "_up.sql"), FileContent(entries, version + "_down.sql");
      && (version in Collect(entries) <==> up.Some? || down.Some?)
      && (version in Collect(entries) ==>
            && Collect(entries)[version].version == version
            && Collect(entries)[version].up == (if up.Some? then up.value else "")
            && Collect(entries)[version].down == (if down.Some? then down.value else ""))
  {
    CollectExactly(entries, version);
  }

  lemma {:induction false} FileContentExactly(entries: seq<Entry>, name: string)
    ensures var r := FileContent(entries, name);
      && (r.None? <==> forall i :: 0 <= i < |entries| ==> entries[i].isDir || entries[i].name != name)
      && (r.Some? ==> exists i :: 0 <= i < |entries| && entries[i] == Entry(name, false, r.value))
  {
    if entries != [] {
      var front, last := entries[..|entries| - 1], |entries| - 1;
      FileContentExactly(front, name);
      assert forall i :: 0 <= i < last ==> front[i] == entries[i];
      if FileContent(front, name).Some? && FileContent(entries, name) == FileContent(front, name) {
        var i :| 0 <= i < |front| && front[i] == Entry(name, false, FileContent(front, name).value);
        assert entries[i] == front[i];
      }
      if !entries[last].isDir && entries[last].name == name {
        assert entries[last] == Entry(name, false, FileContent(entries, name).value);
      }
    }
  }

  /** Walks the sorted versions and stops at the first one that lacks a half. */
  function ListFrom(byVersion: map<string, Migration>, versions: seq<string>): Listing
    requires forall v :: v in versions ==> v in byVersion
  {
    if versions == [] then Migrations([])
    else
      var front, v := versions[..|versions| - 1], versions[|versions| - 1];
      match ListFrom(byVersion, front)
      case MissingHalf(w) => MissingHalf(w)
      case Migrations(all) =>
        if byVersion[v].up == "" || byVersion[v].down == "" then MissingHalf(v) else Migrations(all + [byVersion[v]])
  }

  ghost function ListingOf(entries: seq<Entry>): Listing {
    ListFrom(Collect(entries), Lex.Sorted(Collect(entries).Keys))
  }

  method All(entries: seq<Entry>) returns (r: Listing)
    ensures r == ListingOf(entries)
  {
    var byVersion := map[];
    for i := 0 to |entries|
      invariant byVersion == Collect(entries[..i])
    {
      assert entries[..i + 1][..i] == entries[..i];
      var e := entries[i];
      if e.isDir {
        continue;
      }
      if HasSuffix(e.name, UP) {
        var version := TrimSuffix(e.name, UP);
        var m := Migration(version, "", "");
        if version in byVersion {
          m := byVersion[version];
        }
        byVersion := byVersion[version := m.(up := e.content)];
      } else if HasSuffix(e.name, DOWN) {
        var version := TrimSuffix(e.name, DOWN);
        var m := Migration(version, "", "");
        if version in byVersion {
          m := byVersion[version];
        }
        byVersion := byVersion[version := m.(down := e.content)];
      }
    }
    assert entries[..|entries|] == entries;
    var versions := Lex.SortKeys(byVersion.Keys);
    r := ListVersions(byVersion, versions);
  }

  /** The second half of All: the migrations in the order of the versions. */
  method ListVersions(byVersion: map<string, Migration>, versions: seq<string>) returns (r: Listing)
    requires forall v :: v in versions ==> v in byVersion
    ensures r == ListFrom(byVersion, versions)
  {
    var out := [];
    for i := 0 to |versions|
      invariant ListFrom(byVersion, versions[..i]) == Migrations(out)
    {
      assert versions[..i + 1][..i] == versions[..i];
      var m := byVersion[versions[i]];
      if m.up == "" || m.down == "" {
        MissingStays(byVersion, versions, i + 1);
        return MissingHalf(versions[i]);
      }
      out := out + [m];
    }
    assert versions[..|versions|] == versions;
    return Migrations(out);
  }

  lemma {:induction false} MissingStays(byVersion: map<string, Migration>, versions: seq<string>, i: nat)
    requires i <= |versions| && forall v :: v in versions ==> v in byVersion
    requires ListFrom(byVersion, versions[..i]).MissingHalf?
    ensures ListFrom(byVersion, versions) == ListFrom(byVersion, versions[..i])
  {
    if i < |versions| {
      assert versions[..|versions| - 1][..i] == versions[..i];
      MissingStays(byVersion, versions[..|versions| - 1], i);
    } else {
      assert versions[..i] == versions;
    }
  }

  // ----- What All returns -----

  predicate Complete(m: Migration) {
    m.up != "" && m.down != ""
  }

  predicate FirstIncomplete(byVersion: map<string, Migration>, versions: seq<string>, k: nat)
    requires k < |versions| && forall v :: v in versions ==> v in byVersion
  {
    !Complete(byVersion[versions[k]]) && forall i :: 0 <= i < k ==> Complete(byVersion[versions[i]])
  }

  lemma {:induction false} ListFromExactly(byVersion: map<string, Migration>, versions: seq<string>)
    requires forall v :: v in versions ==> v in byVersion
    ensures var r := ListFrom(byVersion, versions);
      if r.Migrations? then
        |r.all| == |versions| && forall i :: 0 <= i < |versions| ==> r.all[i] == byVersion[versions[i]] && Complete(r.all[i])
      else
        exists k :: 0 <= k < |versions| && r.version == versions[k] && FirstIncomplete(byVersion, versions, k)
  {
    if versions != [] {
      var front, last := versions[..|versions| - 1], |versions| - 1;
      assert forall v :: v in front ==> v in versions;
      ListFromExactly(byVersion, front);
      var r := ListFrom(byVersion, front);
      if r.MissingHalf? {
        var k :| 0 <= k < |front| && r.version == front[k] && FirstIncomplete(byVersion, front, k);
        assert forall i :: 0 <= i <= k ==> versions[i] == front[i];
        assert FirstIncomplete(byVersion, versions, k);
      } else {
        assert forall i :: 0 <= i < last ==> versions[i] == front[i] && Complete(byVersion[front[i]]);
        assert !Complete(byVersion[versions[last]]) ==> FirstIncomplete(byVersion, versions, last);
      }
    }
  }

  /** A version of the directory: at least one of its two files is there. */
  predicate HasVersion(entries: seq<Entry>, version: string) {
    FileContent(entries, version + UP).Some? || FileContent(entries, version + DOWN).Some?
  }

  function FromFiles(entries: seq<Entry>, version: string): Migration {
    Migration(version, TextOf(FileContent(entries, version + UP)), TextOf(FileContent(entries, version + DOWN)))
  }

  lemma CollectedVersions(entries: seq<Entry>)
    ensures forall v :: v in Collect(entries) <==> HasVersion(entries, v)
    ensures forall v :: v in Collect(entries) ==> Collect(entries)[v] == FromFiles(entries, v)
  {
    forall v
      ensures v in Collect(entries) <==> HasVersion(entries, v)
      ensures v in Collect(entries) ==> Collect(entries)[v] == FromFiles(entries, v)
    {
      CollectExactly(entries, v);
    }
  }

  /** All succeeds exactly if every version has two non-empty halves; otherwise it names the first that has not. */
  lemma ListingSucceedsExactly(entries: seq<Entry>)
    ensures ListingOf(entries).Migrations? <==> forall v :: HasVersion(entries, v) ==> Complete(FromFiles(entries, v))
    ensures ListingOf(entries).MissingHalf? ==>
              var w := ListingOf(entries).version;
              && HasVersion(entries, w) && !Complete(FromFiles(entries, w))
              && forall v :: HasVersion(entries, v) && Lex.Less(v, w) ==> Complete(FromFiles(entries, v))
  {
    var byVersion := Collect(entries);
    var versions := Lex.Sorted(byVersion.Keys);
    CollectedVersions(entries);
    ListFromExactly(byVersion, versions);
    var r := ListingOf(entries);
    if r.Migrations? {
      forall v | HasVersion(entries, v)
        ensures Complete(FromFiles(entries, v))
      {
        assert v in versions;
        var i :| 0 <= i < |versions| && versions[i] == v;
        assert Complete(r.all[i]);
      }
    } else {
      var k :| 0 <= k < |versions| && r.version == versions[k] && FirstIncomplete(byVersion, versions, k);
      assert versions[k] in versions;
      forall v | HasVersion(entries, v) && Lex.Less(v, r.version)
        ensures Complete(FromFiles(entries, v))
      {
        assert v in versions;
        var i :| 0 <= i < |versions| && versions[i] == v;
        if i > k { Lex.LessAsym(versions[k], versions[i]); } else if i == k { Lex.LessAsym(v, v); }
      }
    }
  }

  /** The migrations of the versions, in their order, each with its own two texts. */
  predicate ListsVersions(entries: seq<Entry>, versions: seq<string>, all: seq<Migration>) {
    && |all| == |versions|
    && forall i :: 0 <= i < |all| ==> all[i] == FromFiles(entries, versions[i])
  }

  lemma ListedMembers(entries: seq<Entry>, versions: seq<string>, all: seq<Migration>, m: Migration)
    requires ListsVersions(entries, versions, all)
    ensures m in all <==> m.version in versions && m == FromFiles(entries, m.version)
  {
    if m.version in versions && m == FromFiles(entries, m.version) {
      var i :| 0 <= i < |versions| && versions[i] == m.version;
      assert all[i] == m;
    }
  }

  /** A listing has every version of the directory once, strictly ascending, with its own two texts. */
  lemma ListingExactly(entries: seq<Entry>)
    requires ListingOf(entries).Migrations?
    ensures var all := ListingOf(entries).all;
      && (forall i, j :: 0 <= i < j < |all| ==> Lex.Less(all[i].version, all[j].version))
      && (forall m :: m in all <==> HasVersion(entries, m.version) && m == FromFiles(entries, m.version))
  {
    var byVersion := Collect(entries);
    var versions := Lex.Sorted(byVersion.Keys);
    CollectedVersions(entries);
    ListFromExactly(byVersion, versions);
    var all := ListingOf(entries).all;
    assert forall i :: 0 <= i < |all| ==> versions[i] in versions;
    assert ListsVersions(entries, versions, all);
    forall m: Migration
      ensures m in all <==> HasVersion(entries, m.version) && m == FromFiles(entries, m.version)
    {
      ListedMembers(entries, versions, all, m);
    }
  }

  /** Both files of the version are there under their literal names, and neither is empty. */
  predicate HasBothFiles(entries: seq<Entry>, version: string) {
    && FileContent(entries, version + "_up.sql").Some? && FileContent(entries, version + "_up.sql").value != ""
    && FileContent(entries, version + "_down.sql").Some? && FileContent(entries, version + "_down.sql").value != ""
  }

  predicate HasEitherFile(entries: seq<Entry>, version: string) {
    FileContent(entries, version + "_up.sql").Some? || FileContent(entries, version + "_down.sql").Some?
  }

  /** The listing told from the files alone: no half may be missing or empty, and NAME_up.sql is the up script of NAME. */
  lemma ListingByName(entries: seq<Entry>)
    ensures ListingOf(entries).Migrations? <==> forall v :: HasEitherFile(entries, v) ==> HasBothFiles(entries, v)
    ensures ListingOf(entries).Migrations? ==>
              forall m :: m in ListingOf(entries).all <==>
                && HasBothFiles(entries, m.version)
                && FileContent(entries, m.version + "_up.sql").value == m.up
                && FileContent(entries, m.version + "_down.sql").value == m.down
  {
    ListingSucceedsExactly(entries);
    assert forall v :: HasEitherFile(entries, v) <==> HasVersion(entries, v);
    assert forall v :: HasBothFiles(entries, v) <==> Complete(FromFiles(entries, v));
    if ListingOf(entries).Migrations? {
      ListingExactly(entries);
    }
  }

  // ----- Directory order does not matter -----

  predicate DistinctNames(entries: seq<Entry>) {
    forall i, j :: 0 <= i < j < |entries| ==> entries[i].name != entries[j].name
  }

  lemma {:induction false} ContentExactly(entries: seq<Entry>, name: string, content: string)
    requires DistinctNames(entries)
    ensures FileContent(entries, name) == Some(content) <==> Entry(name, false, content) in entries
  {
    if entries != [] {
      var front, last := entries[..|entries| - 1], entries[|entries| - 1];
      ContentExactly(front, name, content);
      assert entries == front + [last];
    }
  }

  lemma SameContent(a: seq<Entry>, b: seq<Entry>, name: string)
    requires DistinctNames(a) && DistinctNames(b) && forall e :: e in a <==> e in b
    ensures FileContent(a, name) == FileContent(b, name)
  {
    var x, y := FileContent(a, name), FileContent(b, name);
    if x.Some? {
      ContentExactly(a, name, x.value);
      ContentExactly(b, name, x.value);
    } else if y.Some? {
      ContentExactly(a, name, y.value);
      ContentExactly(b, name, y.value);
    }
  }

  /** Two directories with the same distinct entries give the same listing, or the same error. */
  lemma OrderDoesNotMatter(a: seq<Entry>, b: seq<Entry>)
    requires DistinctNames(a) && DistinctNames(b) && forall e :: e in a <==> e in b
    ensures ListingOf(a) == ListingOf(b)
  {
    forall version
      ensures Lookup(Collect(a), version) == Lookup(Collect(b), version)
    {
      CollectExactly(a, version);
      CollectExactly(b, version);
      SameContent(a, b, version + UP);
      SameContent(a, b, version + DOWN);
    }
    SameLookups(Collect(a), Collect(b));
  }
}
