/** `git status --porcelain -z` records: the changed files and their top-level buckets.

    `decode` stands for `String::from_utf8_lossy`. The file count is cast to `u32`; the
    bucket counters are natural numbers. */
module Porcelain {
  import opened Common

  const NUL: byte := 0
  const UPPER_C: byte := 67
  const UPPER_R: byte := 82

  lemma BytesAreCharacters()
    ensures NUL == '\0' as int && UPPER_C == 'C' as int && UPPER_R == 'R' as int
  {
  }

  /** `as u32` */
  function AsU32(n: nat): nat {
    n % 0x1_0000_0000
  }

  function NonEmpty(entries: seq<seq<byte>>): (r: seq<seq<byte>>)
    ensures forall i :: 0 <= i < |r| ==> r[i] != []
  {
    if entries == [] then []
    else (if entries[0] == [] then [] else [entries[0]]) + NonEmpty(entries[1..])
  }

  /** The iterator's entries: the non-empty pieces between NUL bytes. */
  function Entries(output: seq<byte>): seq<seq<byte>> {
    NonEmpty(SplitOn(output, NUL))
  }

  /** A rename or copy status takes its current path from the next entry. */
  predicate HasSecondPath(status: seq<byte>) {
    UPPER_R in status || UPPER_C in status
  }

  /** The current paths, in order. */
  function CurrentPaths(entries: seq<seq<byte>>): (paths: seq<seq<byte>>)
    decreases |entries|
  {
    if entries == [] then []
    else
      var entry := entries[0];
      if |entry| <= 3 then CurrentPaths(entries[1..])
      else if HasSecondPath(entry[..2]) then
        if |entries| == 1 then []
        else if entries[1] == [] then CurrentPaths(entries[2..])
        else [entries[1]] + CurrentPaths(entries[2..])
      else [entry[3..]] + CurrentPaths(entries[1..])
  }

  predicate IsSeparator(c: char) {
    c == '/' || c == '\\'
  }

  /** The longest prefix without a separator. */
  function BeforeSeparator(path: string): (front: string)
    ensures front <= path && forall i :: 0 <= i < |front| ==> !IsSeparator(front[i])
    ensures |front| < |path| ==> IsSeparator(path[|front|])
  {
    if path == "" || path[0] == '/' || path[0] == '\\' then "" else [path[0]] + BeforeSeparator(path[1..])
  }

  /** The first component, or "." when the path starts with a separator. */
  function TopLevel(path: string): (top: string)
    ensures top != ""
  {
    if BeforeSeparator(path) == "" then "." else BeforeSeparator(path)
  }

  function Decoded(paths: seq<seq<byte>>, decode: seq<byte> -> string): seq<string> {
    seq(|paths|, i requires 0 <= i < |paths| => decode(paths[i]))
  }

  // ----- buckets

  /** How many of the files fall under `top`. */
  function Under(files: seq<string>, top: string): nat {
    if files == [] then 0
    else Under(files[..|files| - 1], top) + (if TopLevel(files[|files| - 1]) == top then 1 else 0)
  }

  /** The sum of all buckets. */
  ghost function BucketSum(buckets: map<string, nat>): nat
    decreases buckets.Keys
  {
    if buckets == map[] then 0
    else
      var k :| k in buckets;
      buckets[k] + BucketSum(buckets - {k})
  }

  lemma {:induction false} BucketSumWithout(buckets: map<string, nat>, k: string)
    requires k in buckets
    ensures BucketSum(buckets) == buckets[k] + BucketSum(buckets - {k})
    decreases buckets.Keys
  {
    var c :| c in buckets && BucketSum(buckets) == buckets[c] + BucketSum(buckets - {c});
    if c != k {
      BucketSumWithout(buckets - {c}, k);
      BucketSumWithout(buckets - {k}, c);
      assert buckets - {c} - {k} == buckets - {k} - {c};
    }
  }

  lemma BucketSumBump(buckets: map<string, nat>, k: string)
    ensures BucketSum(buckets[k := CountIn(buckets, k) + 1]) == BucketSum(buckets) + 1
  {
    var next := buckets[k := CountIn(buckets, k) + 1];
    BucketSumWithout(next, k);
    assert next - {k} == buckets - {k};
    if k in buckets {
      BucketSumWithout(buckets, k);
    } else {
      assert buckets - {k} == buckets;
    }
  }

  /** `t` is the front of `path` up to its first separator. */
  ghost predicate FrontIs(path: string, t: string) {
    && t <= path && '/' !in t && '\\' !in t
    && (|t| == |path| || path[|t|] == '/' || path[|t|] == '\\')
  }

  /** Which of the files belong in bucket `t`: those with the front `t`; under "." also those
      with none. */
  ghost function Bucket(files: seq<string>, t: string): set<nat> {
    set i: nat | i < |files| && ((t != "" && FrontIs(files[i], t)) || (t == "." && FrontIs(files[i], "")))
  }

  lemma TopLevelIs(path: string, t: string)
    ensures TopLevel(path) == t <==> (t != "" && FrontIs(path, t)) || (t == "." && FrontIs(path, ""))
  {
    var front := BeforeSeparator(path);
    assert FrontIs(path, front);
    FrontIsUnique(path, front, t);
    FrontIsUnique(path, front, "");
  }

  lemma FrontIsUnique(path: string, a: string, b: string)
    requires FrontIs(path, a)
    ensures FrontIs(path, b) ==> a == b
  {
    LongerFrontHolds(path, a, b);
    LongerFrontHolds(path, b, a);
    assert a == path[..|a|] && (b <= path ==> b == path[..|b|]);
  }

  lemma LongerFrontHolds(path: string, a: string, b: string)
    ensures a <= path && b <= path && |a| < |b| && (path[|a|] == '/' || path[|a|] == '\\') ==> '/' in b || '\\' in b
  {
    assert a <= path && b <= path && |a| < |b| ==> b[|a|] == path[|a|];
  }

  lemma {:induction false} UnderIsBucket(files: seq<string>, t: string)
    ensures Under(files, t) == |Bucket(files, t)|
  {
    hide TopLevel, FrontIs;
    if files == [] {
      assert Bucket(files, t) == {};
    } else {
      var n: nat := |files| - 1;
      UnderIsBucket(files[..n], t);
      TopLevelIs(files[n], t);
      var last: set<nat> := if TopLevel(files[n]) == t then {n} else {};
      assert Bucket(files, t) == Bucket(files[..n], t) + last;
    }
  }

  datatype Summary = Summary(fileCount: nat, files: seq<string>, byTop: map<string, nat>)

  method ParseChangedFilesSummary(output: seq<byte>, decode: seq<byte> -> string) returns (s: Summary)
    ensures s.files == Decoded(CurrentPaths(Entries(output)), decode)
    ensures s.fileCount == |s.files| % 0x1_0000_0000
    ensures forall top :: top in s.byTop <==> Bucket(s.files, top) != {}
    ensures forall top :: top in s.byTop ==> s.byTop[top] == |Bucket(s.files, top)|
    ensures BucketSum(s.byTop) == |s.files|
  {
    hide *;
    var entries := Entries(output);
    var files: seq<string> := [];
    var byTop: map<string, nat> := map[];
    ghost var paths: seq<seq<byte>> := [];
    var next := 0;
    Starts(entries);
    NothingTallied();
    DecodedMore([], [], decode);
    while next < |entries|
      invariant next <= |entries|
      invariant OnTrack(entries, next, paths)
      invariant files == Decoded(paths, decode)
      invariant Tallied(files, byTop)
      decreases |entries| - next
    {
      ghost var at := next;
      var entry := entries[next];
      next := next + 1;
      Turn(entries, at, paths);
      if |entry| <= 3 {
        continue;
      }
      var status := entry[..2];
      var currentPath: seq<byte>;
      if HasSecondPath(status) {
        if next < |entries| {
          currentPath := entries[next];
          next := next + 1;
        } else {
          currentPath := [];
        }
      } else {
        currentPath := entry[3..];
      }
      if currentPath == [] {
        continue;
      }
      var path := decode(currentPath);
      TallyOne(files, byTop, path);
      files := files + [path];
      DecodedMore(paths, currentPath, decode);
      paths := paths + [currentPath];
      var top := TopLevel(path);
      byTop := byTop[top := CountIn(byTop, top) + 1];
    }
    Ends(entries, paths);
    TalliedMeans(files, byTop);
    AsU32Is(|files|);
    s := Summary(AsU32(|files|), files, byTop);
  }

  lemma DecodedMore(paths: seq<seq<byte>>, p: seq<byte>, decode: seq<byte> -> string)
    ensures Decoded(paths + [p], decode) == Decoded(paths, decode) + [decode(p)]
    ensures Decoded([], decode) == []
  {
  }

  /** The buckets count the files. */
  ghost predicate Tallied(files: seq<string>, byTop: map<string, nat>) {
    && (forall top :: CountIn(byTop, top) == Under(files, top))
    && (forall top :: top in byTop ==> byTop[top] > 0)
    && BucketSum(byTop) == |files|
  }

  lemma NothingTallied()
    ensures Tallied([], map[])
  {
  }

  lemma TallyOne(files: seq<string>, byTop: map<string, nat>, path: string)
    requires Tallied(files, byTop)
    ensures Tallied(files + [path], byTop[TopLevel(path) := CountIn(byTop, TopLevel(path)) + 1])
  {
    hide TopLevel, BucketSum;
    BucketSumBump(byTop, TopLevel(path));
    var more := files + [path];
    assert more[..|files|] == files && more[|more| - 1] == path;
    assert forall top :: Under(more, top) == Under(files, top) + (if TopLevel(path) == top then 1 else 0);
  }

  lemma TalliedMeans(files: seq<string>, byTop: map<string, nat>)
    requires Tallied(files, byTop)
    ensures forall top :: top in byTop <==> Bucket(files, top) != {}
    ensures forall top :: top in byTop ==> byTop[top] == |Bucket(files, top)|
    ensures BucketSum(byTop) == |files|
  {
    hide Under, Bucket, BucketSum;
    forall top
      ensures Under(files, top) == |Bucket(files, top)| == CountIn(byTop, top)
      ensures |Bucket(files, top)| == 0 <==> Bucket(files, top) == {}
    {
      UnderIsBucket(files, top);
    }
  }

  lemma AsU32Is(n: nat)
    ensures AsU32(n) == n % 0x1_0000_0000
  {
  }

  /** A status asks for a second path by an `R` or a `C`, in either place. */
  lemma SecondPathIff(status: seq<byte>)
    ensures HasSecondPath(status)
            <==> exists i :: 0 <= i < |status| && (status[i] == 'R' as int || status[i] == 'C' as int)
  {
  }

  ghost predicate OnTrack(entries: seq<seq<byte>>, next: nat, paths: seq<seq<byte>>) {
    next <= |entries| && CurrentPaths(entries) == paths + CurrentPaths(entries[next..])
  }

  lemma Turn(entries: seq<seq<byte>>, at: nat, paths: seq<seq<byte>>)
    requires at < |entries| && OnTrack(entries, at, paths)
    ensures var entry := entries[at];
      && (|entry| <= 3 ==> OnTrack(entries, at + 1, paths))
      && (|entry| > 3 && !HasSecondPath(entry[..2]) ==> OnTrack(entries, at + 1, paths + [entry[3..]]))
      && (|entry| > 3 && HasSecondPath(entry[..2]) && at + 1 == |entries| ==> OnTrack(entries, at + 1, paths))
      && (|entry| > 3 && HasSecondPath(entry[..2]) && at + 1 < |entries| && entries[at + 1] == []
          ==> OnTrack(entries, at + 2, paths))
      && (|entry| > 3 && HasSecondPath(entry[..2]) && at + 1 < |entries| && entries[at + 1] != []
          ==> OnTrack(entries, at + 2, paths + [entries[at + 1]]))
  {
  }

  lemma Starts(entries: seq<seq<byte>>)
    ensures OnTrack(entries, 0, [])
  {
  }

  lemma Ends(entries: seq<seq<byte>>, paths: seq<seq<byte>>)
    requires OnTrack(entries, |entries|, paths)
    ensures paths == CurrentPaths(entries)
  {
  }

  // ----- records

  /** A record as the program expects it: two status bytes, a separator byte, a path, and
      for a rename or copy the new path after the old one. */
  datatype Rec = Rec(status: seq<byte>, path: seq<byte>, second: seq<byte>)

  predicate IsPath(p: seq<byte>) {
    p != [] && NUL !in p
  }

  ghost predicate RecOk(r: Rec) {
    && |r.status| == 2 && NUL !in r.status && IsPath(r.path)
    && if HasSecondPath(r.status) then IsPath(r.second) else r.second == []
  }

  function Current(r: Rec): seq<byte> {
    if HasSecondPath(r.status) then r.second else r.path
  }

  function PrintRec(r: Rec): seq<byte> {
    r.status + [SPACE] + r.path + [NUL] + (if HasSecondPath(r.status) then r.second + [NUL] else [])
  }

  function Print(records: seq<Rec>): seq<byte> {
    if records == [] then [] else PrintRec(records[0]) + Print(records[1..])
  }

  function Currents(records: seq<Rec>): seq<seq<byte>> {
    if records == [] then [] else [Current(records[0])] + Currents(records[1..])
  }

  lemma EntriesOfPiece(p: seq<byte>, rest: seq<byte>)
    requires IsPath(p)
    ensures Entries(p + [NUL] + rest) == [p] + Entries(rest)
  {
    SplitOfPiece(p, NUL, rest);
    assert ([p] + SplitOn(rest, NUL))[1..] == SplitOn(rest, NUL);
  }

  lemma CurrentPathsPlain(entry: seq<byte>, rest: seq<seq<byte>>)
    requires |entry| > 3 && !HasSecondPath(entry[..2])
    ensures CurrentPaths([entry] + rest) == [entry[3..]] + CurrentPaths(rest)
  {
    assert ([entry] + rest)[1..] == rest;
  }

  lemma CurrentPathsSecond(entry: seq<byte>, second: seq<byte>, rest: seq<seq<byte>>)
    requires |entry| > 3 && HasSecondPath(entry[..2]) && second != []
    ensures CurrentPaths([entry] + ([second] + rest)) == [second] + CurrentPaths(rest)
  {
    assert ([entry] + ([second] + rest))[2..] == rest;
  }

  lemma EntryParts(r: Rec)
    requires RecOk(r)
    ensures var entry := r.status + [SPACE] + r.path;
            |entry| > 3 && entry[..2] == r.status && entry[3..] == r.path && IsPath(entry)
    ensures HasSecondPath(r.status) ==> r.second != [] && IsPath(r.second)
  {
    hide HasSecondPath;
  }

  /** Printing records and parsing them gives their current paths, in order. */
  lemma {:induction false} RecordsRoundTrip(records: seq<Rec>)
    requires forall i :: 0 <= i < |records| ==> RecOk(records[i])
    ensures CurrentPaths(Entries(Print(records))) == Currents(records)
  {
    hide Entries, HasSecondPath, CurrentPaths, IsPath;
    if records == [] {
      EntriesOfNothing();
    } else {
      var r := records[0];
      assert RecOk(records[0]);
      var rest := Print(records[1..]);
      var entry := r.status + [SPACE] + r.path;
      RecordsRoundTrip(records[1..]);
      EntryParts(r);
      if HasSecondPath(r.status) {
        assert Print(records) == entry + [NUL] + (r.second + [NUL] + rest);
        EntriesOfPiece(entry, r.second + [NUL] + rest);
        EntriesOfPiece(r.second, rest);
        CurrentPathsSecond(entry, r.second, Entries(rest));
      } else {
        assert Print(records) == entry + [NUL] + rest;
        EntriesOfPiece(entry, rest);
        CurrentPathsPlain(entry, Entries(rest));
      }
    }
  }

  /** The paths that come first in their records. */
  function Firsts(records: seq<Rec>): seq<seq<byte>> {
    if records == [] then [] else [records[0].path] + Firsts(records[1..])
  }

  lemma {:induction false} FirstsAreCurrentsIff(records: seq<Rec>)
    ensures |Firsts(records)| == |Currents(records)| == |records|
    ensures Currents(records) == Firsts(records)
            <==> forall i :: 0 <= i < |records| && HasSecondPath(records[i].status) ==> records[i].second == records[i].path
  {
    if records != [] {
      FirstsAreCurrentsIff(records[1..]);
      assert records == [records[0]] + records[1..];
      assert Currents(records)[1..] == Currents(records[1..]);
      assert Firsts(records)[1..] == Firsts(records[1..]);
    }
  }

  /** `git status` with `-z` prints the current path of a rename before the original one. Of
      such output the parser reads the current paths exactly when no renamed or copied file
      has another name than before. */
  lemma CurrentPathFirstIff(records: seq<Rec>)
    requires forall i :: 0 <= i < |records| ==> RecOk(records[i])
    ensures CurrentPaths(Entries(Print(records))) == Firsts(records)
            <==> forall i :: 0 <= i < |records| && HasSecondPath(records[i].status) ==> records[i].second == records[i].path
  {
    RecordsRoundTrip(records);
    FirstsAreCurrentsIff(records);
  }

  /** The bytes `R  b`, NUL, `a`, NUL, by which `git status` says that `a` is now `b`: the
      parser reports `a`. */
  lemma RenameReportsOriginal()
    ensures CurrentPaths(Entries([UPPER_R, SPACE, SPACE, 98, NUL, 97, NUL])) == [[97]]
  {
    var r := Rec([UPPER_R, SPACE], [98], [97]);
    hide Entries, CurrentPaths;
    assert RecOk(r);
    RecordsRoundTrip([r]);
    assert Print([r][1..]) == [];
    assert PrintRec(r) == [UPPER_R, SPACE, SPACE, 98, NUL, 97, NUL];
    assert Print([r]) == PrintRec(r);
    assert Currents([r][1..]) == [];
  }

  lemma EntriesOfNothing()
    ensures Entries([]) == [] && CurrentPaths([]) == []
  {
    var none: seq<seq<byte>> := [[]];
    assert none[1..] == [];
    assert NonEmpty(none) == [];
  }
}
