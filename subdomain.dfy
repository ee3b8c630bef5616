/**
 * function/subdomain.py: `merge_files`, which unites the stripped lines of every
 * tool output file that exists and writes them sorted, one per line.
 */
module Subdomain {
  import opened Optional
  import opened PyStr
  import opened StrOrder

  /** One item of the tool → output-file dictionary: the tool's name, the file's path,
      and the file's text once the tools have run (None when the file does not exist). */
  datatype ToolFile = ToolFile(tool: string, path: string, content: Option<string>)

  /** `[line.strip() for line in f.readlines()]` as a set: what one file adds. Blank
      lines are not filtered out, so a blank line adds `""`. */
  function Contribution(f: ToolFile): set<string>
  {
    match f.content
    case None => {}
    case Some(c) => set l | l in Lines(c) :: Strip(l)
  }

  /** `x` is a stripped line of one of the files that exist. */
  ghost predicate Contributes(files: seq<ToolFile>, x: string) {
    exists i :: 0 <= i < |files| && x in Contribution(files[i])
  }

  /** The set `subdomains` after the loop over `files` (in dictionary order). */
  function MergedSet(files: seq<ToolFile>): (s: set<string>)
    ensures forall x :: x in s <==> Contributes(files, x)
    decreases |files|
  {
    if files == [] then {} else
      var init := files[..|files| - 1];
      var s := MergedSet(init) + Contribution(files[|files| - 1]);
      ContributesSnoc(files);
      s
  }

  lemma {:induction false} ContributesSnoc(files: seq<ToolFile>)
    requires files != []
    ensures forall x :: Contributes(files, x) <==>
      Contributes(files[..|files| - 1], x) || x in Contribution(files[|files| - 1])
  {
    forall x ensures Contributes(files, x) <==>
      Contributes(files[..|files| - 1], x) || x in Contribution(files[|files| - 1])
    {
      if Contributes(files, x) { ContributesSplit(files, x); }
      if Contributes(files[..|files| - 1], x) { ContributesWiden(files, x); }
    }
  }

  lemma {:induction false} ContributesSplit(files: seq<ToolFile>, x: string)
    requires files != [] && Contributes(files, x)
    ensures Contributes(files[..|files| - 1], x) || x in Contribution(files[|files| - 1])
  {
    var n := |files| - 1;
    var init := files[..n];
    var i :| 0 <= i < |files| && x in Contribution(files[i]);
    if i < n {
      assert init[i] == files[i];
      assert Contributes(init, x);
    } else {
      assert i == n;
    }
  }

  lemma {:induction false} ContributesWiden(files: seq<ToolFile>, x: string)
    requires files != [] && Contributes(files[..|files| - 1], x)
    ensures Contributes(files, x)
  {
    var init := files[..|files| - 1];
    var i :| 0 <= i < |init| && x in Contribution(init[i]);
    assert init[i] == files[i];
  }

  /** The merged file's text: `"\n".join(sorted(subdomains))`. */
  function MergedContent(files: seq<ToolFile>): string
  {
    Join(SortedOf(MergedSet(files)), "\n")
  }

  /** The warning printed and logged for a tool whose output file is missing. */
  function MissingWarning(f: ToolFile): string
  {
    "Warning: " + f.path + " not found, skipping " + f.tool + " results."
  }

  /** The warnings of the files that do not exist, in dictionary order. */
  function MissingWarnings(files: seq<ToolFile>): seq<string>
    decreases |files|
  {
    if files == [] then [] else
      var init := files[..|files| - 1];
      var last := files[|files| - 1];
      MissingWarnings(init) + (if last.content.None? then [MissingWarning(last)] else [])
  }

  /** `merge_files`: returns the text written to the merged file and the warnings issued
      for missing files. Every existing file's stripped lines end up in the output,
      nothing else does, and the output lists them once each in sorted order. */
  method MergeFiles(files: seq<ToolFile>) returns (merged: string, warnings: seq<string>)
    ensures merged == MergedContent(files)
    ensures warnings == MissingWarnings(files)
  {
    var subdomains: set<string> := {};
    warnings := [];
    var i := 0;
    while i < |files|
      invariant 0 <= i <= |files|
      invariant subdomains == MergedSet(files[..i])
      invariant warnings == MissingWarnings(files[..i])
    {
      var f := files[i];
      MergeStep(files, i);
      match f.content {
        case Some(c) =>
          var lines := StripAll(Lines(c));
          StrippedLinesContribute(f);
          subdomains := subdomains + set x | x in lines;
        case None =>
          warnings := warnings + [MissingWarning(f)];
      }
      i := i + 1;
    }
    assert files[..|files|] == files;
    merged := Join(SortedOf(subdomains), "\n");
  }

  /** Reading one more file adds its stripped lines, or its warning when it is missing. */
  lemma MergeStep(files: seq<ToolFile>, i: nat)
    requires i < |files|
    ensures MergedSet(files[..i + 1]) == MergedSet(files[..i]) + Contribution(files[i])
    ensures files[i].content.None? ==>
      MissingWarnings(files[..i + 1]) == MissingWarnings(files[..i]) + [MissingWarning(files[i])]
    ensures files[i].content.Some? ==> MissingWarnings(files[..i + 1]) == MissingWarnings(files[..i])
  {
    assert files[..i + 1][..i] == files[..i] && files[..i + 1][i] == files[i];
  }

  /** The list of stripped lines holds exactly what the file contributes. */
  lemma StrippedLinesContribute(f: ToolFile)
    requires f.content.Some?
    ensures (set x | x in StripAll(Lines(f.content.value))) == Contribution(f)
  {
    StripAllMembers(Lines(f.content.value));
  }

  // Properties of the merged output ------------------------------------------

  /** The output's entries are the sorted, duplicate-free listing of exactly the stripped
      lines of the files that exist. */
  lemma MergedEntries(files: seq<ToolFile>)
    ensures var e := SortedOf(MergedSet(files));
      && MergedContent(files) == Join(e, "\n")
      && StrictlyIncreasing(e)
      && forall x :: x in e <==> Contributes(files, x)
  {
  }

  /** Every stripped line is stripped and free of newlines, so the entries can be written one per line. */
  lemma MergedEntriesAreLines(files: seq<ToolFile>)
    ensures forall x :: x in MergedSet(files) ==> IsStripped(x) && '\n' !in x
  {
    forall x | x in MergedSet(files) ensures IsStripped(x) && '\n' !in x {
      var i :| 0 <= i < |files| && x in Contribution(files[i]);
      var c := files[i].content.value;
      var l :| l in Lines(c) && Strip(l) == x;
      LinesShape(c);
      StripNoNewline(l);
    }
  }

  /** A missing file is skipped: the result is the one obtained by leaving that tool out. */
  lemma MissingFileSkipped(files: seq<ToolFile>, i: nat)
    requires i < |files| && files[i].content.None?
    ensures MergedContent(files[..i] + files[i + 1..]) == MergedContent(files)
  {
    var rest := files[..i] + files[i + 1..];
    RemovalMembers(files, i);
    forall x ensures x in MergedSet(rest) <==> x in MergedSet(files) {
      if Contributes(rest, x) { ContributesAmong(rest, files, x); }
      if Contributes(files, x) { ContributesAmong(files, rest, x); }
    }
    assert MergedSet(rest) == MergedSet(files);
  }

  /** Removing entry `i` keeps every other entry and adds none. */
  lemma RemovalMembers(files: seq<ToolFile>, i: nat)
    requires i < |files|
    ensures forall f :: f in files[..i] + files[i + 1..] ==> f in files
    ensures forall f :: f in files && f != files[i] ==> f in files[..i] + files[i + 1..]
  {
    var rest := files[..i] + files[i + 1..];
    forall f | f in rest ensures f in files {
      var j :| 0 <= j < |rest| && rest[j] == f;
      if j < i { assert files[j] == f; } else { assert files[j + 1] == f; }
    }
    forall f | f in files && f != files[i] ensures f in rest {
      var j :| 0 <= j < |files| && files[j] == f;
      if j < i { assert rest[j] == f; } else { assert rest[j - 1] == f; }
    }
  }

  /** What one list of files contributes, another contributes too, when it holds every
      existing file of the first. */
  lemma ContributesAmong(a: seq<ToolFile>, b: seq<ToolFile>, x: string)
    requires Contributes(a, x)
    requires forall f :: f in a && f.content.Some? ==> f in b
    ensures Contributes(b, x)
  {
    var j :| 0 <= j < |a| && x in Contribution(a[j]);
    assert a[j] in a;
    var k :| 0 <= k < |b| && b[k] == a[j];
  }

  /** The result does not depend on the order of the dictionary's items. */
  lemma OrderIndependent(files: seq<ToolFile>, others: seq<ToolFile>)
    requires forall f :: f in files <==> f in others
    ensures MergedContent(files) == MergedContent(others)
  {
    forall x ensures Contributes(files, x) <==> Contributes(others, x) {
      if Contributes(files, x) { ContributesAmong(files, others, x); }
      if Contributes(others, x) { ContributesAmong(others, files, x); }
    }
    assert MergedSet(files) == MergedSet(others);
  }

  /** With no existing file the merged file is empty. */
  lemma NoFilesEmptyOutput(files: seq<ToolFile>)
    requires forall i :: 0 <= i < |files| ==> files[i].content.None?
    ensures MergedContent(files) == ""
  {
    assert MergedSet(files) == {};
  }

  /** The merged text never ends with a newline. */
  lemma NoTrailingNewline(files: seq<ToolFile>)
    ensures var m := MergedContent(files); m == [] || m[|m| - 1] != '\n'
  {
    var e := SortedOf(MergedSet(files));
    MergedEntriesAreLines(files);
    OnlyFirstMayBeEmpty(e);
    if |e| >= 1 {
      var last := e[|e| - 1];
      assert last in MergedSet(files);
      if last != [] {
        JoinLast(e, "\n");
        assert !IsSpace(last[|last| - 1]);
      } else {
        assert |e| == 1;
      }
    }
  }

  /** In a strictly increasing listing only the first entry can be `""`. */
  lemma OnlyFirstMayBeEmpty(e: seq<string>)
    requires StrictlyIncreasing(e)
    ensures forall k :: 0 < k < |e| ==> e[k] != []
  {
    forall k | 0 < k < |e| ensures e[k] != [] {
      NothingBelowEmpty(e[0]);
      assert Below(e[0], e[k]);
    }
  }

  /** A blank input line is kept as the entry `""`, which sorts first: when there is any
      other entry, the merged text starts with an empty line. */
  lemma BlankLineLeads(files: seq<ToolFile>)
    requires Contributes(files, "")
    requires exists x :: x != "" && Contributes(files, x)
    ensures var m := MergedContent(files); m != [] && m[0] == '\n'
  {
    var e := SortedOf(MergedSet(files));
    var x :| x != "" && Contributes(files, x);
    BlankSortsFirst(e, x);
    JoinLeadingBlank(e);
  }

  /** In a strictly increasing listing holding `""` and some `x != ""`, `""` comes first and
      is not alone. */
  lemma BlankSortsFirst(e: seq<string>, x: string)
    requires StrictlyIncreasing(e) && "" in e && x in e && x != ""
    ensures |e| >= 2 && e[0] == ""
  {
    OnlyFirstMayBeEmpty(e);
    var k :| 0 <= k < |e| && e[k] == "";
    var j :| 0 <= j < |e| && e[j] == x;
    assert k == 0 && j != 0;
  }

  /** Joining entries whose first is `""` gives a text that starts with the separator. */
  lemma JoinLeadingBlank(e: seq<string>)
    requires |e| >= 2 && e[0] == ""
    ensures var m := Join(e, "\n"); m != [] && m[0] == '\n'
  {
    var rest := Join(e[1..], "\n");
    assert Join(e, "\n") == e[0] + "\n" + rest;
    assert e[0] + "\n" == "\n";
    FirstOfConcat("\n", rest);
  }
}
