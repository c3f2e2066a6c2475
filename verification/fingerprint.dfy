/**
 * Directory fingerprints and the per-source state map that decides whether the
 * metadata cache is stale (core/static_generator.py, `calculate_directory_hash`
 * and `get_current_state_hash`).
 *
 * MD5 is abstracted as a `digest` function from the text fed to it to the hex
 * digest. Feeding two chunks with `update` digests their concatenation, so the
 * fingerprint is `digest` applied to one string: the concatenation, over the
 * matching files in sorted path order, of each relative path and its mtime text.
 */
module Fingerprint {
  import opened Ordering
  import opened Sorting

  /**
   * One entry below a directory, at any depth: its path relative to the
   * directory as a list of parts, the text `str(st_mtime)`, and whether it is a
   * regular file.
   */
  datatype FileEntry = FileEntry(path: seq<string>, mtime: string, isFile: bool)

  /** A source directory: absent, or present with every entry below it in enumeration order. */
  datatype Dir = Missing | Present(listing: seq<FileEntry>)

  predicate EndsWith(s: string, suffix: string) {
    |suffix| <= |s| && s[|s| - |suffix|..] == suffix
  }

  /** `rglob("*.py")` reports an entry whose name ends in ".py", file or directory. */
  predicate MatchesPy(e: FileEntry) {
    |e.path| > 0 && EndsWith(e.path[|e.path| - 1], ".py")
  }

  /** No two entries of a listing share a path, as in any real directory tree. */
  ghost predicate UniquePaths(listing: seq<FileEntry>) {
    forall i, j :: 0 <= i < j < |listing| ==> listing[i].path != listing[j].path
  }

  /** The entries `rglob("*.py")` yields, in enumeration order. */
  function Matches(listing: seq<FileEntry>): (r: seq<FileEntry>)
    ensures forall e :: e in r <==> e in listing && MatchesPy(e)
    ensures UniquePaths(listing) ==> UniquePaths(r)
  {
    if |listing| == 0 then []
    else
      var rest := Matches(listing[1..]);
      assert UniquePaths(listing) ==> forall e :: e in rest ==> e.path != listing[0].path by {
        if UniquePaths(listing) {
          forall e | e in rest ensures e.path != listing[0].path {
            var k :| 0 <= k < |listing[1..]| && listing[1..][k] == e;
            assert listing[k + 1] == e;
          }
        }
      }
      assert listing == [listing[0]] + listing[1..];
      if MatchesPy(listing[0]) then [listing[0]] + rest else rest
  }

  /** `sorted` on `Path` objects: paths compared part by part. */
  predicate EntryBefore(e1: FileEntry, e2: FileEntry) {
    PathLess(e1.path, e2.path)
  }

  lemma EntryBeforeIsStrictOrder()
    ensures Irreflexive(EntryBefore) && Transitive(EntryBefore)
    ensures forall e1: FileEntry, e2: FileEntry :: e1.path != e2.path ==> EntryBefore(e1, e2) || EntryBefore(e2, e1)
  {
    PathLessIsStrictTotalOrder();
  }

  /** `str(relative_path)`: the parts joined with "/". */
  function JoinPath(parts: seq<string>): string {
    if |parts| == 0 then ""
    else if |parts| == 1 then parts[0]
    else parts[0] + "/" + JoinPath(parts[1..])
  }

  /** The text fed to the digest for one entry: nothing for a non-file, else its relative path then its mtime. */
  function Chunk(e: FileEntry): string {
    if e.isFile then JoinPath(e.path) + e.mtime else ""
  }

  /** Everything fed to the digest for the entries of `sorted`, in order. */
  function HashInput(sorted: seq<FileEntry>): string {
    if |sorted| == 0 then "" else Chunk(sorted[0]) + HashInput(sorted[1..])
  }

  lemma {:induction false} HashInputAppend(x: seq<FileEntry>, y: seq<FileEntry>)
    ensures HashInput(x + y) == HashInput(x) + HashInput(y)
  {
    if |x| > 0 {
      assert (x + y)[1..] == x[1..] + y;
      HashInputAppend(x[1..], y);
    } else {
      assert x + y == y;
    }
  }

  /** The matching entries of a present directory in the order the fingerprint visits them. */
  function VisitOrder(listing: seq<FileEntry>): seq<FileEntry> {
    Sort(Matches(listing), EntryBefore)
  }

  /** `calculate_directory_hash`: "" for a missing directory, else the digest of the visited files. */
  function DirectoryHash(d: Dir, digest: string -> string): (r: string)
    ensures d.Missing? ==> r == ""
    ensures (forall s :: |digest(s)| == 32) ==> (r == "" <==> d.Missing?)
    ensures d.Present? ==> r == digest(HashInput(VisitOrder(d.listing)))
  {
    match d
    case Missing => ""
    case Present(listing) => digest(HashInput(VisitOrder(listing)))
  }

  /** With unique paths, the visit order is strictly increasing by path. */
  lemma VisitOrderStrictlySorted(listing: seq<FileEntry>)
    requires UniquePaths(listing)
    ensures StrictlySorted(VisitOrder(listing), EntryBefore)
  {
    EntryBeforeIsStrictOrder();
    var m := Matches(listing);
    assert PairwiseComparable(m, EntryBefore);
    SortStrictlySorted(m, EntryBefore);
  }

  lemma VisitOrderMembers(listing: seq<FileEntry>)
    ensures forall e :: e in VisitOrder(listing) <==> e in listing && MatchesPy(e)
  {
    var m := Matches(listing);
    var s := Sort(m, EntryBefore);
    forall e ensures e in s <==> e in m {
      assert e in s <==> e in multiset(s);
      assert e in m <==> e in multiset(m);
    }
  }

  /**
   * The fingerprint does not depend on the order in which the file system
   * enumerates the tree: two enumerations of the same entries hash alike.
   */
  lemma EnumerationOrderIrrelevant(a: seq<FileEntry>, b: seq<FileEntry>, digest: string -> string)
    requires multiset(a) == multiset(b)
    requires UniquePaths(a) && UniquePaths(b)
    ensures DirectoryHash(Present(a), digest) == DirectoryHash(Present(b), digest)
  {
    EntryBeforeIsStrictOrder();
    VisitOrderStrictlySorted(a);
    VisitOrderStrictlySorted(b);
    VisitOrderMembers(a);
    VisitOrderMembers(b);
    forall e ensures e in a <==> e in b {
      assert e in a <==> e in multiset(a);
      assert e in b <==> e in multiset(b);
    }
    StrictlySortedUnique(VisitOrder(a), VisitOrder(b), EntryBefore);
  }

  /** A present directory with a changed mtime for one entry. */
  function Touch(listing: seq<FileEntry>, i: nat, mtime: string): seq<FileEntry>
    requires i < |listing|
  {
    listing[i := listing[i].(mtime := mtime)]
  }

  /** Replacing the mtime of one file in a visit order changes the text fed to the digest. */
  lemma ReplaceMtimeChangesHashInput(s: seq<FileEntry>, p: nat, mtime: string)
    requires p < |s| && s[p].isFile && mtime != s[p].mtime
    ensures HashInput(s[p := s[p].(mtime := mtime)]) != HashInput(s)
  {
    var e := s[p];
    var e' := e.(mtime := mtime);
    HashInputAround(s, p, e);
    HashInputAround(s, p, e');
    assert s[p := e] == s;
    var path := JoinPath(e.path);
    assert Chunk(e) == path + e.mtime && Chunk(e') == path + mtime;
    ConcatMiddleDiffers(path, e.mtime, mtime, []);
    ConcatMiddleDiffers(HashInput(s[..p]), Chunk(e), Chunk(e'), HashInput(s[p + 1..]));
  }

  /** The text fed for a visit order with entry p replaced: the prefix's text, the new entry's chunk, the suffix's text. */
  lemma HashInputAround(s: seq<FileEntry>, p: nat, e': FileEntry)
    requires p < |s|
    ensures HashInput(s[p := e']) == HashInput(s[..p]) + Chunk(e') + HashInput(s[p + 1..])
  {
    var t := s[p := e'];
    assert t == (s[..p] + [e']) + s[p + 1..];
    HashInputAppend(s[..p] + [e'], s[p + 1..]);
    HashInputAppend(s[..p], [e']);
    assert HashInput([e']) == Chunk(e');
  }

  /** Strings that differ only in a middle part differ. */
  lemma ConcatMiddleDiffers(before: string, x: string, y: string, after: string)
    requires x != y
    ensures before + x + after != before + y + after
  {
    var u := before + x + after;
    var v := before + y + after;
    if |x| == |y| {
      var k :| 0 <= k < |x| && x[k] != y[k];
      assert u[|before| + k] == x[k];
      assert v[|before| + k] == y[k];
    } else {
      assert |u| != |v|;
    }
  }

  lemma TouchKeepsPaths(listing: seq<FileEntry>, i: nat, mtime: string)
    requires UniquePaths(listing) && i < |listing|
    ensures UniquePaths(Touch(listing, i, mtime))
    ensures forall x :: x in Touch(listing, i, mtime) <==>
      x == listing[i].(mtime := mtime) || (x in listing && x.path != listing[i].path)
  {
    var touched := Touch(listing, i, mtime);
    forall a, b | 0 <= a < b < |touched| ensures touched[a].path != touched[b].path {
      assert touched[a].path == listing[a].path && touched[b].path == listing[b].path;
    }
    forall x ensures x in touched <==> x == listing[i].(mtime := mtime) || (x in listing && x.path != listing[i].path) {
      if x in listing && x.path != listing[i].path {
        var j :| 0 <= j < |listing| && listing[j] == x;
        assert touched[j] == x;
      }
      if x == listing[i].(mtime := mtime) {
        assert touched[i] == x;
      }
      if x in touched {
        var j :| 0 <= j < |touched| && touched[j] == x;
        if j != i {
          assert listing[j] == x;
          assert x.path != listing[i].path;
        }
      }
    }
  }

  /** In a strictly sorted sequence, replacing the entry at p by one with the same path keeps it sorted. */
  lemma ReplaceSamePath(s: seq<FileEntry>, p: nat, e': FileEntry)
    requires StrictlySorted(s, EntryBefore) && p < |s| && e'.path == s[p].path
    ensures StrictlySorted(s[p := e'], EntryBefore)
    ensures forall x :: x in s[p := e'] <==> x == e' || (x in s && x.path != s[p].path)
  {
    EntryBeforeIsStrictOrder();
    PathLessIsStrictTotalOrder();
    var t := s[p := e'];
    forall a, b | 0 <= a < b < |t| ensures EntryBefore(t[a], t[b]) {
      assert t[a].path == s[a].path && t[b].path == s[b].path;
      assert EntryBefore(s[a], s[b]);
    }
    forall x ensures x in t <==> x == e' || (x in s && x.path != s[p].path) {
      if x in t {
        var k :| 0 <= k < |t| && t[k] == x;
        if k != p {
          assert x == s[k];
          assert EntryBefore(s[k], s[p]) || EntryBefore(s[p], s[k]);
          assert !PathLess(s[p].path, s[p].path);
          assert s[k].path != s[p].path;
        }
      }
      if x == e' {
        assert t[p] == x;
      }
      if x in s && x.path != s[p].path {
        var k :| 0 <= k < |s| && s[k] == x;
        assert t[k] == x;
      }
    }
  }

  /** Touching entry i of a listing touches the same entry, in place, in the visit order. */
  lemma TouchedVisitOrder(listing: seq<FileEntry>, i: nat, mtime: string) returns (p: nat)
    requires UniquePaths(listing)
    requires i < |listing| && MatchesPy(listing[i])
    ensures p < |VisitOrder(listing)| && VisitOrder(listing)[p] == listing[i]
    ensures VisitOrder(Touch(listing, i, mtime)) == VisitOrder(listing)[p := listing[i].(mtime := mtime)]
  {
    EntryBeforeIsStrictOrder();
    var e := listing[i];
    var e' := e.(mtime := mtime);
    var touched := Touch(listing, i, mtime);
    TouchKeepsPaths(listing, i, mtime);
    var s := VisitOrder(listing);
    VisitOrderStrictlySorted(listing);
    VisitOrderMembers(listing);
    VisitOrderStrictlySorted(touched);
    VisitOrderMembers(touched);
    assert e in s;
    p :| 0 <= p < |s| && s[p] == e;
    ReplaceSamePath(s, p, e');
    StrictlySortedUnique(s[p := e'], VisitOrder(touched), EntryBefore);
  }

  /**
   * Touching a Python file (a new mtime, same path) changes the text fed to the
   * digest, so only a digest collision could leave the fingerprint unchanged.
   */
  lemma TouchChangesHashInput(listing: seq<FileEntry>, i: nat, mtime: string)
    requires UniquePaths(listing)
    requires i < |listing| && MatchesPy(listing[i]) && listing[i].isFile
    requires mtime != listing[i].mtime
    ensures HashInput(VisitOrder(Touch(listing, i, mtime))) != HashInput(VisitOrder(listing))
  {
    var p := TouchedVisitOrder(listing, i, mtime);
    ReplaceMtimeChangesHashInput(VisitOrder(listing), p, mtime);
  }

  /** The decimal text of a natural number, as Python's `str(i)`. */
  function NatToString(n: nat): (r: string)
    ensures |r| > 0
    ensures n < 10 <==> |r| == 1
    decreases n
  {
    if n < 10 then [DecimalDigit(n)] else NatToString(n / 10) + [DecimalDigit(n % 10)]
  }

  function DecimalDigit(d: nat): char
    requires d < 10
  {
    ('0' as int + d) as char
  }

  lemma {:induction false} NatToStringInjective(a: nat, b: nat)
    requires NatToString(a) == NatToString(b)
    ensures a == b
    decreases a
  {
    var s := NatToString(a);
    if a >= 10 {
      assert b >= 10;
      assert s[|s| - 1] == DecimalDigit(a % 10) == DecimalDigit(b % 10);
      assert s[..|s| - 1] == NatToString(a / 10) == NatToString(b / 10);
      NatToStringInjective(a / 10, b / 10);
    } else {
      assert s[0] == DecimalDigit(a) == DecimalDigit(b);
    }
  }

  /** The state-map key of the i-th configured extra directory, `f"extra_{i}"`. */
  function ExtraKey(i: nat): string {
    "extra_" + NatToString(i)
  }

  lemma ExtraKeyInjective()
    ensures forall i: nat, j: nat :: ExtraKey(i) == ExtraKey(j) ==> i == j
    ensures forall i: nat :: ExtraKey(i) != "builtin"
  {
    forall i: nat, j: nat | ExtraKey(i) == ExtraKey(j) ensures i == j {
      assert NatToString(i) == ExtraKey(i)[6..];
      assert NatToString(j) == ExtraKey(j)[6..];
      NatToStringInjective(i, j);
    }
    ExtraKeyNotBuiltin();
  }

  lemma ExtraKeyNotBuiltin()
    ensures forall i: nat :: ExtraKey(i) != "builtin"
  {
    forall i: nat ensures ExtraKey(i) != "builtin" {
      assert ExtraKey(i)[0] == 'e';
    }
  }

  /**
   * `get_current_state_hash`: the fingerprint of the built-in directory under
   * "builtin" and of the i-th configured extra directory under "extra_i", each
   * only when that directory exists; i is the position in the configuration,
   * whether or not earlier directories exist.
   */
  function CurrentStateHash(builtin: Dir, extras: seq<Dir>, digest: string -> string): (r: map<string, string>)
    ensures "builtin" in r <==> builtin.Present?
    ensures "builtin" in r ==> r["builtin"] == DirectoryHash(builtin, digest)
    ensures forall i :: 0 <= i < |extras| ==> (ExtraKey(i) in r <==> extras[i].Present?)
    ensures forall i :: 0 <= i < |extras| && extras[i].Present? ==> r[ExtraKey(i)] == DirectoryHash(extras[i], digest)
    ensures forall k :: k in r ==> k == "builtin" || exists i :: 0 <= i < |extras| && k == ExtraKey(i)
  {
    ExtraKeyNotBuiltin();
    var extraStates := ExtraStates(extras, digest);
    if builtin.Present? then extraStates["builtin" := DirectoryHash(builtin, digest)] else extraStates
  }

  /** The `extra_i` entries of the state map. */
  function ExtraStates(extras: seq<Dir>, digest: string -> string): (r: map<string, string>)
    ensures "builtin" !in r
    ensures forall i :: 0 <= i < |extras| ==> (ExtraKey(i) in r <==> extras[i].Present?)
    ensures forall i :: 0 <= i < |extras| && extras[i].Present? ==> r[ExtraKey(i)] == DirectoryHash(extras[i], digest)
    ensures forall k :: k in r ==> exists i :: 0 <= i < |extras| && k == ExtraKey(i)
  {
    ExtraKeyInjective();
    map i | 0 <= i < |extras| && extras[i].Present? :: ExtraKey(i) := DirectoryHash(extras[i], digest)
  }

  /**
   * Under the idealisation that the digest has no collisions, touching a
   * Python file of the built-in tree changes the state map.
   */
  lemma TouchChangesState(listing: seq<FileEntry>, i: nat, mtime: string, extras: seq<Dir>, digest: string -> string)
    requires forall x, y :: digest(x) == digest(y) ==> x == y
    requires UniquePaths(listing)
    requires i < |listing| && MatchesPy(listing[i]) && listing[i].isFile
    requires mtime != listing[i].mtime
    ensures CurrentStateHash(Present(Touch(listing, i, mtime)), extras, digest) != CurrentStateHash(Present(listing), extras, digest)
  {
    TouchChangesHashInput(listing, i, mtime);
    var before := CurrentStateHash(Present(listing), extras, digest);
    var after := CurrentStateHash(Present(Touch(listing, i, mtime)), extras, digest);
    assert after["builtin"] != before["builtin"];
  }
}
