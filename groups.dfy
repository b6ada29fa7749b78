/**
 * The group list of src/app/groups/page.tsx: the file tree of a group and
 * the loops that count its files, the category read from a group name,
 * the name shown for it, and the search over the group names.
 */
module Groups {
  import opened Wrappers
  import Seqs
  import Text

  datatype FileItem = FileItem(name: string, path: string, content: Option<string>)

  datatype FolderItem = FolderItem(name: string, path: string, files: seq<FileItem>, folders: seq<FolderItem>)

  datatype GroupStructure = GroupStructure(group: string, files: seq<FileItem>, folders: seq<FolderItem>)

  datatype Group = Group(name: string, slug: string)

  datatype GroupWithCount = GroupWithCount(name: string, slug: string, cardCount: nat)

  // ---------------------------------------------------------------------
  // Counting files
  // ---------------------------------------------------------------------

  /** The number of files in a folder and all its sub-folders, at any depth. */
  function FolderTotal(folder: FolderItem): nat
    decreases folder
  {
    |folder.files| + ForestTotal(folder.folders)
  }

  /** The number of files in a list of folders and all their sub-folders. */
  function ForestTotal(folders: seq<FolderItem>): nat
    decreases folders
  {
    if |folders| == 0 then 0
    else ForestTotal(folders[..|folders| - 1]) + FolderTotal(folders[|folders| - 1])
  }

  /** Every file of a folder, its own first and then those of each sub-folder in order. */
  function FolderFiles(folder: FolderItem): seq<FileItem>
    decreases folder
  {
    folder.files + ForestFiles(folder.folders)
  }

  /** Every file of a list of folders, folder by folder. */
  function ForestFiles(folders: seq<FolderItem>): seq<FileItem>
    decreases folders
  {
    if |folders| == 0 then []
    else ForestFiles(folders[..|folders| - 1]) + FolderFiles(folders[|folders| - 1])
  }

  /** Every file of a group: those at its root, then those in its folders. */
  function AllFiles(structure: GroupStructure): seq<FileItem>
  {
    structure.files + ForestFiles(structure.folders)
  }

  /** The totals count exactly the files of the flattened tree. */
  lemma {:induction false} TotalsCountFiles(folder: FolderItem, folders: seq<FolderItem>)
    ensures FolderTotal(folder) == |FolderFiles(folder)|
    ensures ForestTotal(folders) == |ForestFiles(folders)|
    decreases folder, folders
  {
    ForestCountsFiles(folder.folders);
    ForestCountsFiles(folders);
  }

  /** The forest half of `TotalsCountFiles`. */
  lemma {:induction false} ForestCountsFiles(folders: seq<FolderItem>)
    ensures ForestTotal(folders) == |ForestFiles(folders)|
    decreases folders
  {
    if |folders| > 0 {
      ForestCountsFiles(folders[..|folders| - 1]);
      var last := folders[|folders| - 1];
      ForestCountsFiles(last.folders);
    }
  }

  /** `countFolderFiles`: the folder's own files plus, sub-folder by sub-folder, their counts. */
  method CountFolderFiles(folder: FolderItem) returns (folderCount: nat)
    ensures folderCount == FolderTotal(folder)
    decreases folder
  {
    folderCount := |folder.files|;
    var i := 0;
    while i < |folder.folders|
      invariant 0 <= i <= |folder.folders|
      invariant folderCount == |folder.files| + ForestTotal(folder.folders[..i])
    {
      var subfolderCount := CountFolderFiles(folder.folders[i]);
      assert folder.folders[..i + 1][..i] == folder.folders[..i];
      folderCount := folderCount + subfolderCount;
      i := i + 1;
    }
    assert folder.folders[..i] == folder.folders;
  }

  /**
   * `countFiles`: the root's files plus the count of every folder. It is
   * the number of files anywhere in the group, never less than the files
   * at the root, and exactly those when there are no folders.
   */
  method CountFiles(structure: GroupStructure) returns (count: nat)
    ensures count == |AllFiles(structure)|
    ensures count >= |structure.files|
    ensures structure.folders == [] ==> count == |structure.files|
  {
    count := |structure.files|;
    var i := 0;
    while i < |structure.folders|
      invariant 0 <= i <= |structure.folders|
      invariant count == |structure.files| + ForestTotal(structure.folders[..i])
    {
      var folderCount := CountFolderFiles(structure.folders[i]);
      assert structure.folders[..i + 1][..i] == structure.folders[..i];
      count := count + folderCount;
      i := i + 1;
    }
    assert structure.folders[..i] == structure.folders;
    ForestCountsFiles(structure.folders);
  }

  /** The card count of a group: its file count, or 0 when its structure could not be fetched. */
  method WithCount(group: Group, structure: Option<GroupStructure>) returns (g: GroupWithCount)
    ensures g.name == group.name && g.slug == group.slug
    ensures structure.None? ==> g.cardCount == 0
    ensures structure.Some? ==> g.cardCount == |AllFiles(structure.value)|
  {
    if structure.Some? {
      var count := CountFiles(structure.value);
      g := GroupWithCount(group.name, group.slug, count);
    } else {
      g := GroupWithCount(group.name, group.slug, 0);
    }
  }

  // ---------------------------------------------------------------------
  // Category and display name
  // ---------------------------------------------------------------------

  /** `/\[([^\]]+)\]/` matches at position `k` of `s` with a category of length `n`. */
  ghost predicate BracketAt(s: string, k: int, n: int)
  {
    && 0 <= k && 1 <= n && k + n + 2 <= |s|
    && s[k] == '['
    && (forall j :: k < j <= k + n ==> s[j] != ']')
    && s[k + n + 1] == ']'
  }

  /** No match begins at a position in `[i, j)`. */
  ghost predicate NoBracketBetween(s: string, i: int, j: int)
  {
    forall k, n :: i <= k < j ==> !BracketAt(s, k, n)
  }

  /** The length of the text a match at `i` would capture: the run of non-`]` after the `[`. */
  function CaptureLength(s: string, i: nat): nat
    requires i < |s|
  {
    Text.RunWithout(s[i + 1..], ']')
  }

  /** Whether the expression matches at position `i`, decided by the run of non-`]` after it. */
  lemma BracketAtRun(s: string, i: nat)
    requires i < |s|
    ensures forall m :: BracketAt(s, i, m) <==>
      (s[i] == '[' && 1 <= CaptureLength(s, i) && i + CaptureLength(s, i) + 2 <= |s| && m == CaptureLength(s, i))
  {
    var t := s[i + 1..];
    assert forall j :: i < j < |s| ==> s[j] == t[j - i - 1];
  }

  /** A match at `i` ends at the first `]` after it. */
  predicate MatchesAt(s: string, i: nat)
    requires i < |s|
  {
    s[i] == '[' && 1 <= CaptureLength(s, i) && i + CaptureLength(s, i) + 2 <= |s|
  }

  /** The leftmost position at or after `i` where the expression matches, if any. */
  function FirstBracket(s: string, i: nat): (r: Option<nat>)
    requires i <= |s|
    ensures r.None? <==> NoBracketBetween(s, i, |s|)
    ensures r.Some? ==> i <= r.value < |s| && NoBracketBetween(s, i, r.value)
                        && BracketAt(s, r.value, CaptureLength(s, r.value))
    decreases |s| - i
  {
    if i == |s| then None
    else
      BracketAtRun(s, i);
      if MatchesAt(s, i) then
        assert BracketAt(s, i, CaptureLength(s, i));
        Some(i)
      else
        var r := FirstBracket(s, i + 1);
        assert forall m :: !BracketAt(s, i, m);
        r
  }

  /** `getCategory`: the text captured by the leftmost match, or `""` when there is none. */
  function Category(groupName: string): (r: string)
    ensures r == [] <==> NoBracketBetween(groupName, 0, |groupName|)
    ensures r != [] ==> exists k :: BracketAt(groupName, k, |r|) && r == groupName[k + 1..k + 1 + |r|]
                                    && NoBracketBetween(groupName, 0, k)
  {
    match FirstBracket(groupName, 0)
    case None => []
    case Some(k) =>
      var n := CaptureLength(groupName, k);
      var r := groupName[k + 1..k + 1 + n];
      assert |r| == n;
      r
  }

  /** The category never contains a closing bracket. */
  lemma CategoryHasNoClosingBracket(groupName: string)
    ensures ']' !in Category(groupName)
  {
    var r := Category(groupName);
    if r != [] {
      var k :| BracketAt(groupName, k, |r|) && r == groupName[k + 1..k + 1 + |r|];
      forall j | 0 <= j < |r| ensures r[j] != ']' {
        assert r[j] == groupName[k + 1 + j];
      }
    }
  }

  /** The bracket after a title is a match, and none starts inside the title. */
  lemma TitledNameMatch(title: string, category: string, rest: string)
    requires '[' !in title && category != [] && ']' !in category
    ensures BracketAt(title + "[" + category + "]" + rest, |title|, |category|)
    ensures NoBracketBetween(title + "[" + category + "]" + rest, 0, |title|)
  {
    var s := title + "[" + category + "]" + rest;
    var k := |title|;
    assert forall j :: k < j <= k + |category| ==> s[j] == category[j - k - 1];
    assert forall j :: 0 <= j < k ==> s[j] == title[j];
  }

  /** A name made of a title and one bracketed category reads back that category. */
  lemma CategoryOfTitledName(title: string, category: string, rest: string)
    requires '[' !in title && category != [] && ']' !in category
    ensures Category(title + "[" + category + "]" + rest) == category
  {
    var s := title + "[" + category + "]" + rest;
    var k := |title|;
    TitledNameMatch(title, category, rest);
    var first := FirstBracket(s, 0);
    assert first.Some?;
    var m := first.value;
    assert !(k < m);
    assert !(m < k);
    BracketAtRun(s, k);
    assert CaptureLength(s, k) == |category|;
    assert s[k + 1..k + 1 + |category|] == category;
  }

  /** `s.split(c)[0]`: the part of `s` before the first `c`, or all of `s`. */
  function BeforeFirst(s: string, c: char): (r: string)
    ensures |r| <= |s| && r == s[..|r|]
    ensures c !in r
    ensures |r| < |s| ==> s[|r|] == c
  {
    var n := Text.RunWithout(s, c);
    s[..n]
  }

  /** The name shown for a group: the part before the first `[`, trimmed. */
  function DisplayName(groupName: string): (r: string)
    ensures '[' !in r
  {
    var r := Text.Trim(BeforeFirst(groupName, '['));
    assert forall j :: 0 <= j < |r| ==> r[j] in BeforeFirst(groupName, '[');
    r
  }

  /** Without `c` the split keeps the whole string. */
  lemma BeforeFirstAbsent(s: string, c: char)
    requires c !in s
    ensures BeforeFirst(s, c) == s
  {
  }

  /** Without a `[` the whole name is shown, trimmed. */
  lemma DisplayNameWithoutBracket(groupName: string)
    requires '[' !in groupName
    ensures DisplayName(groupName) == Text.Trim(groupName)
  {
    BeforeFirstAbsent(groupName, '[');
  }

  /** The split of a titled name at its first bracket. */
  lemma BeforeFirstOfTitledName(title: string, rest: string)
    requires '[' !in title
    ensures BeforeFirst(title + "[" + rest, '[') == title
  {
    var s := title + "[" + rest;
    var b := BeforeFirst(s, '[');
    assert s[|title|] == '[';
    assert forall j :: 0 <= j < |title| ==> s[j] == title[j];
    assert |b| == |title|;
    assert s[..|title|] == title;
  }

  /** The title of a titled name is shown without the category or the blanks before it. */
  lemma DisplayNameOfTitledName(title: string, rest: string)
    requires '[' !in title
    ensures DisplayName(title + "[" + rest) == Text.Trim(title)
  {
    BeforeFirstOfTitledName(title, rest);
  }

  // ---------------------------------------------------------------------
  // Search
  // ---------------------------------------------------------------------

  /** A group passes the search when its lower-cased name contains the lower-cased query. */
  predicate NameMatches(name: string, searchQuery: string)
  {
    Text.Contains(Text.LowerStr(name), Text.LowerStr(searchQuery))
  }

  /** The group-filter effect: the groups whose names pass the search, in their order. */
  function FilterGroups(groups: seq<GroupWithCount>, searchQuery: string): seq<GroupWithCount>
  {
    Seqs.Filter(groups, (group: GroupWithCount, _: int) => NameMatches(group.name, searchQuery))
  }

  /** The filter keeps, in order, exactly the groups whose names pass the search. */
  lemma FilterGroupsSelects(groups: seq<GroupWithCount>, searchQuery: string)
    ensures var keep := (group: GroupWithCount, _: int) => NameMatches(group.name, searchQuery);
      var kept := Seqs.Kept(groups, keep);
      && |FilterGroups(groups, searchQuery)| == |kept|
      && Seqs.StrictlyIncreasing(kept)
      && (forall k :: 0 <= k < |kept| ==> FilterGroups(groups, searchQuery)[k] == groups[kept[k]])
      && (forall i :: 0 <= i < |groups| ==> (i in kept <==> NameMatches(groups[i].name, searchQuery)))
  {
    var keep := (group: GroupWithCount, _: int) => NameMatches(group.name, searchQuery);
    Seqs.FilterSelectsKept(groups, keep);
  }

  /** The empty query keeps every group. */
  lemma EmptyQueryKeepsAll(groups: seq<GroupWithCount>)
    ensures FilterGroups(groups, "") == groups
  {
    var keep := (group: GroupWithCount, _: int) => NameMatches(group.name, "");
    forall i | 0 <= i < |groups| ensures keep(groups[i], i) {
      assert Text.LowerStr("") == "";
      assert Text.OccursAt(Text.LowerStr(groups[i].name), "", 0);
    }
    Seqs.FilterKeepsAll(groups, keep);
  }

  /** What the table body shows: the placeholder row, or one row per group. */
  datatype GroupRow = GroupRow(key: string, displayName: string, category: Option<string>, count: nat)

  datatype GroupTable = NoGroupsFound | GroupRows(rows: seq<GroupRow>)

  /**
   * The table for the filtered groups. Each row shows the group's display
   * name and its card count under its slug as key; the category pill is
   * shown only for a non-empty category, and then holds that category.
   */
  function RenderGroups(filteredGroups: seq<GroupWithCount>): (t: GroupTable)
    ensures t.NoGroupsFound? <==> filteredGroups == []
    ensures t.GroupRows? ==> |t.rows| == |filteredGroups|
    ensures t.GroupRows? ==> forall i :: 0 <= i < |t.rows| ==>
      t.rows[i].key == filteredGroups[i].slug && t.rows[i].count == filteredGroups[i].cardCount
      && t.rows[i].displayName == DisplayName(filteredGroups[i].name)
      && (t.rows[i].category.Some? <==> Category(filteredGroups[i].name) != [])
      && (t.rows[i].category.Some? ==> t.rows[i].category.value == Category(filteredGroups[i].name))
  {
    if |filteredGroups| == 0 then NoGroupsFound
    else
      GroupRows(seq(|filteredGroups|, i requires 0 <= i < |filteredGroups| =>
        var g := filteredGroups[i];
        var category := Category(g.name);
        GroupRow(g.slug, DisplayName(g.name), if category != [] then Some(category) else None, g.cardCount)))
  }
}
