/** Which configuration headers are generated and what goes into each
    (ecos/host/libcdl/build.cxx): loadables may share a header. */
module ConfigHeaders {

  const SYSTEM_H := "system.h"

  /** A loadable that defines something, and the header it goes to. */
  datatype Loadable = Loadable(id: nat, file: string)

  /** One header with the loadables written to it. */
  datatype Group = Group(file: string, members: seq<Loadable>)

  function Files(ls: seq<Loadable>): seq<string> {
    if ls == [] then [] else Files(ls[..|ls| - 1]) + [ls[|ls| - 1].file]
  }

  /** s without repetitions, each element where it first occurs. */
  function Firsts(s: seq<string>): seq<string> {
    if s == [] then [] else
    var r := Firsts(s[..|s| - 1]);
    if s[|s| - 1] in r then r else r + [s[|s| - 1]]
  }

  lemma {:induction false} FirstsAre(s: seq<string>)
    ensures forall x :: x in Firsts(s) <==> x in s
    ensures forall i, j :: 0 <= i < j < |Firsts(s)| ==> Firsts(s)[i] != Firsts(s)[j]
  {
    if s != [] {
      FirstsAre(s[..|s| - 1]);
      assert s == s[..|s| - 1] + [s[|s| - 1]];
    }
  }

  /** A header comes ahead of another exactly if it is wanted first. */
  lemma {:induction false} FirstsInOrder(s: seq<string>, i: nat, j: nat, k: nat)
    requires i < j < |Firsts(s)| && k < |s| && s[k] == Firsts(s)[j]
    ensures Firsts(s)[i] in s[..k]
  {
    var n := |s| - 1;
    FirstsAre(s[..n]);
    if k < n {
      assert s[..n][k] in s[..n];
      assert s[..n][..k] == s[..k];
      FirstsInOrder(s[..n], i, j, k);
    } else if s[n] in Firsts(s[..n]) {
      var m :| 0 <= m < n && s[..n][m] == s[n];
      FirstsInOrder(s[..n], i, j, m);
      assert s[..n][..m] <= s[..k];
    }
  }

  /** The loadables that go to a header, in order. */
  function Sharing(ls: seq<Loadable>, file: string): seq<Loadable> {
    if ls == [] then [] else
    Sharing(ls[..|ls| - 1], file) + if ls[|ls| - 1].file == file then [ls[|ls| - 1]] else []
  }

  /** Earlier loadables are written first. */
  lemma {:induction false} SharingJoin(a: seq<Loadable>, b: seq<Loadable>, file: string)
    ensures Sharing(a + b, file) == Sharing(a, file) + Sharing(b, file)
  {
    if b == [] {
      assert a + b == a;
    } else {
      assert (a + b)[..|a + b| - 1] == a + b[..|b| - 1];
      SharingJoin(a, b[..|b| - 1], file);
    }
  }

  function GroupsOf(ls: seq<Loadable>, files: seq<string>): seq<Group> {
    if files == [] then [] else
    GroupsOf(ls, files[..|files| - 1]) + [Group(files[|files| - 1], Sharing(ls, files[|files| - 1]))]
  }

  function Written(groups: seq<Group>): seq<Loadable> {
    if groups == [] then [] else Written(groups[..|groups| - 1]) + groups[|groups| - 1].members
  }

  lemma {:induction false} FilesAre(ls: seq<Loadable>)
    ensures |Files(ls)| == |ls| && forall k :: 0 <= k < |ls| ==> Files(ls)[k] == ls[k].file
  {
    if ls != [] {
      FilesAre(ls[..|ls| - 1]);
    }
  }

  // ---------------------------------------------------------------- every loadable exactly once

  /** How many of the files are a given one. */
  lemma {:induction false} SharingCount(ls: seq<Loadable>, file: string, l: Loadable)
    ensures multiset(Sharing(ls, file))[l] == if l.file == file then multiset(ls)[l] else 0
  {
    if ls != [] {
      var front, last := ls[..|ls| - 1], ls[|ls| - 1];
      SharingCount(front, file, l);
      assert ls == front + [last];
    }
  }

  lemma {:induction false} WrittenCount(ls: seq<Loadable>, files: seq<string>, l: Loadable)
    requires forall i, j :: 0 <= i < j < |files| ==> files[i] != files[j]
    ensures multiset(Written(GroupsOf(ls, files)))[l] == if l.file in files then multiset(ls)[l] else 0
  {
    if files != [] {
      var front, last := files[..|files| - 1], files[|files| - 1];
      WrittenCount(ls, front, l);
      SharingCount(ls, last, l);
      assert files == front + [last];
      var g := GroupsOf(ls, files);
      assert g[..|g| - 1] == GroupsOf(ls, front);
    }
  }

  /** Every loadable is written exactly once, to its own header. */
  lemma WrittenOnce(ls: seq<Loadable>)
    ensures multiset(Written(GroupsOf(ls, Firsts(Files(ls))))) == multiset(ls)
  {
    var files := Firsts(Files(ls));
    FilesAre(ls);
    FirstsAre(Files(ls));
    forall l ensures multiset(Written(GroupsOf(ls, files)))[l] == multiset(ls)[l] {
      WrittenCount(ls, files, l);
      if l in ls {
        var k :| 0 <= k < |ls| && ls[k] == l;
        assert Files(ls)[k] in Files(ls);
      }
    }
  }

  lemma {:induction false} SharingOwn(ls: seq<Loadable>, file: string)
    ensures forall l :: l in Sharing(ls, file) ==> l.file == file
  {
    if ls != [] {
      SharingOwn(ls[..|ls| - 1], file);
    }
  }

  /** The headers announced are system.h and those generated, in the same order, unless a
      loadable wants to go to system.h itself. */
  lemma {:induction false} Announced(files: seq<string>)
    requires SYSTEM_H !in files
    ensures Firsts([SYSTEM_H] + files) == [SYSTEM_H] + Firsts(files)
  {
    var all := [SYSTEM_H] + files;
    if files == [] {
      assert all[..0] == [] && Firsts([]) == [];
    } else {
      hide *;
      var before, last := files[..|files| - 1], files[|files| - 1];
      assert all[..|all| - 1] == [SYSTEM_H] + before && all[|all| - 1] == last;
      assert last in files;
      FirstsStep(all);
      FirstsStep(files);
      Announced(before);
      FirstsAre(before);
      NotFirst(Firsts(before), last);
    }
  }

  lemma FirstsStep(files: seq<string>)
    requires files != []
    ensures var before, last := files[..|files| - 1], files[|files| - 1];
      Firsts(files) == if last in Firsts(before) then Firsts(before) else Firsts(before) + [last]
  {
  }

  lemma NotFirst(s: seq<string>, last: string)
    requires last != SYSTEM_H
    ensures last in [SYSTEM_H] + s <==> last in s
    ensures [SYSTEM_H] + s + [last] == [SYSTEM_H] + (s + [last])
  {
  }

  lemma HeadersNext(files: seq<string>, i: nat)
    requires i < |files|
    ensures var before := Firsts([SYSTEM_H] + files[..i]);
      Firsts([SYSTEM_H] + files[..i + 1]) == if files[i] in before then before else before + [files[i]]
  {
    var all := [SYSTEM_H] + files[..i + 1];
    assert all[..|all| - 1] == [SYSTEM_H] + files[..i];
  }

  /** In any case they are system.h and those generated. */
  lemma AnnouncedFiles(ls: seq<Loadable>, file: string)
    ensures file in Firsts([SYSTEM_H] + Files(ls)) <==> file == SYSTEM_H || exists g :: g in GroupsOf(ls, Firsts(Files(ls))) && g.file == file
  {
    FirstsAre([SYSTEM_H] + Files(ls));
    FirstsAre(Files(ls));
    GroupFiles(ls, Firsts(Files(ls)), file);
  }

  lemma {:induction false} GroupFiles(ls: seq<Loadable>, files: seq<string>, file: string)
    ensures file in files <==> exists g :: g in GroupsOf(ls, files) && g.file == file
  {
    if files != [] {
      var front, last := files[..|files| - 1], files[|files| - 1];
      GroupFiles(ls, front, file);
      assert files == front + [last];
      var group := Group(last, Sharing(ls, last));
      assert group in GroupsOf(ls, files);
      assert forall g :: g in GroupsOf(ls, files) <==> g in GroupsOf(ls, front) || g == group;
    }
  }

  // ---------------------------------------------------------------- the code

  /** get_config_headers */
  method GetConfigHeaders(ls: seq<Loadable>) returns (headers: seq<string>)
    ensures headers == Firsts([SYSTEM_H] + Files(ls))
  {
    headers := [SYSTEM_H];
    var i := 0;
    FilesAre(ls);
    assert [SYSTEM_H][..0] == [];
    assert [SYSTEM_H] + Files(ls)[..0] == [SYSTEM_H];
    hide Firsts, Files;
    while i < |ls|
      invariant 0 <= i <= |ls| && headers == Firsts([SYSTEM_H] + Files(ls)[..i])
    {
      HeadersNext(Files(ls), i);
      if ls[i].file !in headers {
        headers := headers + [ls[i].file];
      }
      i := i + 1;
    }
    assert Files(ls)[..|ls|] == Files(ls);
  }

  /** The marks after the first n loadables have been looked at: "" stands for those whose
      header is done. */
  ghost predicate Marked(ls: seq<Loadable>, marks: seq<string>, done: seq<string>, done': seq<string>, n: nat) {
    && |marks| == |ls|
    && (forall k :: 0 <= k < |ls| ==> marks[k] == if ls[k].file in (if k < n then done' else done) then "" else ls[k].file)
  }

  lemma NothingMarked(ls: seq<Loadable>)
    ensures Marked(ls, Files(ls), [], [], 0)
  {
    FilesAre(ls);
  }

  lemma MarkAt(ls: seq<Loadable>, marks: seq<string>, done: seq<string>, done': seq<string>, n: nat, k: nat)
    requires Marked(ls, marks, done, done', n) && k < |ls|
    ensures k < |marks| && marks[k] == if ls[k].file in (if k < n then done' else done) then "" else ls[k].file
  {
  }

  lemma MarkNext(ls: seq<Loadable>, marks: seq<string>, done: seq<string>, target: string, n: nat)
    requires Marked(ls, marks, done, done + [target], n) && n < |ls| && target != "" && target !in done
    ensures n < |marks|
    ensures Marked(ls, if marks[n] == target then marks[n := ""] else marks, done, done + [target], n + 1)
    ensures marks[n] == target <==> ls[n].file == target
  {
    var marks' := if marks[n] == target then marks[n := ""] else marks;
    forall k | 0 <= k < |ls|
      ensures marks'[k] == if ls[k].file in (if k < n + 1 then done + [target] else done) then "" else ls[k].file
    {
      hide Marked;
      MarkAt(ls, marks, done, done + [target], n, k);
      MarkAt(ls, marks, done, done + [target], n, n);
    }
  }

  lemma MarkFrom(ls: seq<Loadable>, marks: seq<string>, done: seq<string>, done': seq<string>, n: nat, n': nat)
    requires Marked(ls, marks, done, done, n)
    requires forall k :: 0 <= k < n' && k < |ls| ==> (ls[k].file in done <==> ls[k].file in done')
    ensures Marked(ls, marks, done, done', n')
  {
  }

  lemma SharingNext(ls: seq<Loadable>, n: nat, file: string)
    requires n < |ls|
    ensures Sharing(ls[..n + 1], file) == Sharing(ls[..n], file) + if ls[n].file == file then [ls[n]] else []
  {
    assert ls[..n + 1][..n] == ls[..n];
  }

  lemma GroupsNext(ls: seq<Loadable>, files: seq<string>, file: string)
    ensures GroupsOf(ls, files + [file]) == GroupsOf(ls, files) + [Group(file, Sharing(ls, file))]
  {
    assert (files + [file])[..|files|] == files;
  }

  lemma FirstsNext(s: seq<string>, i: nat)
    requires i < |s|
    ensures Firsts(s[..i + 1]) == if s[i] in Firsts(s[..i]) then Firsts(s[..i]) else Firsts(s[..i]) + [s[i]]
  {
    assert s[..i + 1][..i] == s[..i];
  }

  lemma DoneBefore(ls: seq<Loadable>, n: nat)
    requires n <= |ls|
    ensures |Files(ls)| == |ls|
    ensures forall k :: 0 <= k < n ==> ls[k].file in Firsts(Files(ls)[..n])
  {
    FilesAre(ls);
    FirstsAre(Files(ls)[..n]);
    forall k | 0 <= k < n ensures ls[k].file in Firsts(Files(ls)[..n]) {
      assert Files(ls)[..n][k] == ls[k].file;
    }
  }

  lemma {:induction false} NoneBefore(ls: seq<Loadable>, n: nat, file: string)
    requires n <= |ls| && (forall k :: 0 <= k < n ==> ls[k].file != file)
    ensures Sharing(ls[..n], file) == []
  {
    if n > 0 {
      assert ls[..n][..n - 1] == ls[..n - 1];
      NoneBefore(ls, n - 1, file);
    }
  }

  /** The outer loop of generate_config_headers: every header with all its loadables, at the
      place of the first of them. */
  method GenerateConfigHeaders(ls: seq<Loadable>) returns (groups: seq<Group>)
    requires forall l :: l in ls ==> l.file != ""
    ensures groups == GroupsOf(ls, Firsts(Files(ls)))
  {
    var marks := Files(ls);
    groups := [];
    var outer := 0;
    FilesAre(ls);
    NothingMarked(ls);
    assert Files(ls)[..0] == [];
    ghost var files, done: seq<string> := Files(ls), [];
    assert Firsts([]) == [] && GroupsOf(ls, []) == [];
    hide Marked, Firsts, GroupsOf, Sharing, Files;
    while outer < |ls|
      invariant 0 <= outer <= |ls| == |files| == |marks| && done == Firsts(files[..outer])
      invariant Marked(ls, marks, done, done, 0) && groups == GroupsOf(ls, done)
    {
      assert ls[outer] in ls;
      FirstsNext(files, outer);
      MarkAt(ls, marks, done, done, 0, outer);
      if marks[outer] != "" {
        DoneBefore(ls, outer);
        GroupsNext(ls, done, ls[outer].file);
        var members;
        members, marks := WriteGroup(ls, marks, outer, done);
        groups := groups + [Group(ls[outer].file, members)];
        done := done + [ls[outer].file];
      }
      outer := outer + 1;
    }
    assert files[..|ls|] == files;
  }

  /** The inner loop: all loadables of one header are written, and marked. */
  method WriteGroup(ls: seq<Loadable>, marks: seq<string>, outer: nat, ghost done: seq<string>)
    returns (members: seq<Loadable>, marks': seq<string>)
    requires outer < |ls| == |marks| && Marked(ls, marks, done, done, 0) && marks[outer] == ls[outer].file != ""
    requires (forall k :: 0 <= k < outer ==> ls[k].file in done) && ls[outer].file !in done
    ensures members == Sharing(ls, ls[outer].file) && |marks'| == |ls|
    ensures Marked(ls, marks', done + [ls[outer].file], done + [ls[outer].file], 0)
  {
    hide Marked, Sharing;
    var target := marks[outer];
    ghost var done' := done + [target];
    NoneBefore(ls, outer, target);
    MarkFrom(ls, marks, done, done', 0, outer);
    members, marks' := [], marks;
    var inner := outer;
    while inner < |ls|
      invariant outer <= inner <= |ls| == |marks'| && members == Sharing(ls[..inner], target)
      invariant Marked(ls, marks', done, done', inner)
    {
      SharingNext(ls, inner, target);
      MarkNext(ls, marks', done, target, inner);
      if marks'[inner] == target {
        members := members + [ls[inner]];
        marks' := marks'[inner := ""];
      }
      inner := inner + 1;
    }
    assert ls[..|ls|] == ls;
    AllMarked(ls, marks', done, done');
  }

  lemma AllMarked(ls: seq<Loadable>, marks: seq<string>, done: seq<string>, done': seq<string>)
    requires Marked(ls, marks, done, done', |ls|)
    ensures Marked(ls, marks, done', done', 0)
  {
  }
}
