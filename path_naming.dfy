/** The string handling that names files in lib/frame-comparer.ts:
    Node's `path.basename`, `path.resolve` for a directory and one plain
    name, and JavaScript's `String.prototype.replace` with a string pattern,
    which replaces only the first occurrence. */
module PathNaming {
  import opened Wrappers

  /** `resolve(dir, name)` for a name that holds no separator: the name
      placed under the directory. */
  function Join(dir: string, name: string): string
  {
    dir + "/" + name
  }

  /** `pat` occurs in `s` starting at index `j`. */
  predicate OccursAt(s: string, pat: string, j: nat)
  {
    j + |pat| <= |s| && s[j..j + |pat|] == pat
  }

  /** The first index at or after `k` where `pat` occurs in `s`. */
  function IndexFrom(s: string, pat: string, k: nat): (r: Option<nat>)
    decreases |s| - k
    ensures r.Some? ==> r.value + |pat| <= |s|
  {
    if |s| < k + |pat| then None
    else if OccursAt(s, pat, k) then Some(k)
    else IndexFrom(s, pat, k + 1)
  }

  /** `s.indexOf(pat)`, with None for -1. */
  function IndexOf(s: string, pat: string): (r: Option<nat>)
    ensures r.Some? ==> r.value + |pat| <= |s|
  {
    IndexFrom(s, pat, 0)
  }

  /** IndexFrom finds the first occurrence at or after `k`, and finds none
      only when there is none. */
  lemma {:induction false} IndexFromFindsFirst(s: string, pat: string, k: nat)
    decreases |s| - k
    ensures var r := IndexFrom(s, pat, k);
      && (r.Some? ==> k <= r.value && OccursAt(s, pat, r.value))
      && (r.Some? ==> forall j :: k <= j < r.value ==> !OccursAt(s, pat, j))
      && (r.None? ==> forall j :: k <= j ==> !OccursAt(s, pat, j))
  {
    if |s| >= k + |pat| && !OccursAt(s, pat, k) {
      IndexFromFindsFirst(s, pat, k + 1);
    }
  }

  /** IndexOf finds the first occurrence, and reports none exactly when the
      pattern does not occur. */
  lemma IndexOfFindsFirst(s: string, pat: string)
    ensures var r := IndexOf(s, pat);
      && (r.Some? ==> OccursAt(s, pat, r.value) && forall j: nat :: j < r.value ==> !OccursAt(s, pat, j))
      && (r.None? <==> forall j: nat :: !OccursAt(s, pat, j))
  {
    IndexFromFindsFirst(s, pat, 0);
  }

  /** `s.replace(pat, rep)` for a string pattern without `$` patterns in
      `rep`: only the first occurrence of `pat` is replaced. */
  function ReplaceFirst(s: string, pat: string, rep: string): string
  {
    match IndexOf(s, pat)
    case None => s
    case Some(i) => s[..i] + rep + s[i + |pat|..]
  }

  /** `s` with its trailing separators removed. */
  function StripTrailingSlashes(s: string): (t: string)
    ensures |t| <= |s|
  {
    if s != [] && s[|s| - 1] == '/' then StripTrailingSlashes(s[..|s| - 1]) else s
  }

  /** Stripping removes a run of separators at the end and nothing else. */
  lemma {:induction false} StripTrailingSlashesRemovesOnlySeparators(s: string)
    ensures var t := StripTrailingSlashes(s);
      && t == s[..|t|]
      && (t == [] || t[|t| - 1] != '/')
      && (forall i :: |t| <= i < |s| ==> s[i] == '/')
  {
    if s != [] && s[|s| - 1] == '/' {
      StripTrailingSlashesRemovesOnlySeparators(s[..|s| - 1]);
    }
  }

  /** The longest suffix of `s` that holds no separator. */
  function LastSegment(s: string): (name: string)
    ensures '/' !in name
    ensures |name| <= |s|
  {
    if s == [] || s[|s| - 1] == '/' then []
    else LastSegment(s[..|s| - 1]) + [s[|s| - 1]]
  }

  /** The last segment is a suffix, preceded by a separator unless it is
      the whole string. */
  lemma {:induction false} LastSegmentIsSuffix(s: string)
    ensures var name := LastSegment(s);
      name == s[|s| - |name|..] && (|name| < |s| ==> s[|s| - |name| - 1] == '/')
  {
    if s != [] && s[|s| - 1] != '/' {
      var init, last := s[..|s| - 1], s[|s| - 1];
      LastSegmentIsSuffix(init);
      var name := LastSegment(init);
      assert LastSegment(s) == name + [last];
      assert s == init + [last];
      assert s[|s| - |name| - 1..] == init[|init| - |name|..] + [last];
      if |name| < |init| {
        assert s[|s| - |name| - 2] == init[|init| - |name| - 1];
      }
    }
  }

  /** `path.basename(p)` on POSIX: trailing separators are ignored and
      the last segment is returned. */
  function Basename(p: string): (name: string)
    ensures '/' !in name
  {
    LastSegment(StripTrailingSlashes(p))
  }

  /** The diff artifact's path for a frame (lib/frame-comparer.ts:26): the
      first ".png" of the whole frame path becomes "_diff.png", and the base
      name of the result is placed under the log directory. */
  function DiffImagePath(logStorage: string, frame: string): string
  {
    Join(logStorage, Basename(ReplaceFirst(frame, ".png", "_diff.png")))
  }

  /** ReplaceFirst agrees with the independent description "cut out the
      first occurrence and put `rep` in its place". */
  lemma ReplaceFirstAtFirstOccurrence(s: string, pat: string, rep: string, i: nat)
    requires OccursAt(s, pat, i)
    requires forall j: nat :: j < i ==> !OccursAt(s, pat, j)
    ensures ReplaceFirst(s, pat, rep) == s[..i] + rep + s[i + |pat|..]
  {
    IndexOfFindsFirst(s, pat);
    var r := IndexOf(s, pat);
    assert r.Some?;
    assert !(r.value < i);
    assert !(i < r.value);
  }

  /** Without an occurrence of the pattern, ReplaceFirst changes nothing. */
  lemma ReplaceFirstWithoutOccurrence(s: string, pat: string, rep: string)
    requires forall j: nat :: !OccursAt(s, pat, j)
    ensures ReplaceFirst(s, pat, rep) == s
  {
    IndexOfFindsFirst(s, pat);
  }

  /** The last segment of `dir/name` is `name`. */
  lemma {:induction false} LastSegmentOfJoin(dir: string, name: string)
    requires '/' !in name
    ensures LastSegment(Join(dir, name)) == name
  {
    var p := Join(dir, name);
    if name == [] {
      assert p[|p| - 1] == '/';
    } else {
      var init := name[..|name| - 1];
      assert p[..|p| - 1] == Join(dir, init);
      assert '/' !in init by {
        forall c | c in init ensures c != '/' {
          assert c in name;
        }
      }
      LastSegmentOfJoin(dir, init);
      assert p[|p| - 1] == name[|name| - 1];
      assert name == init + [name[|name| - 1]];
    }
  }

  /** `basename(resolve(dir, name)) == name` for a non-empty name without
      separators: Basename undoes Join. */
  lemma BasenameOfJoin(dir: string, name: string)
    requires name != [] && '/' !in name
    ensures Basename(Join(dir, name)) == name
  {
    var p := Join(dir, name);
    assert p[|p| - 1] == name[|name| - 1];
    assert StripTrailingSlashes(p) == p;
    LastSegmentOfJoin(dir, name);
  }

  /** A frame `dir/stem.png` whose first ".png" is its extension gets the
      diff artifact `logStorage/stem_diff.png`. */
  lemma DiffImageOfPngFrame(logStorage: string, dir: string, stem: string)
    requires '/' !in stem
    requires forall j: nat :: j < |dir| + 1 + |stem| ==> !OccursAt(Join(dir, stem + ".png"), ".png", j)
    ensures DiffImagePath(logStorage, Join(dir, stem + ".png")) == Join(logStorage, stem + "_diff.png")
  {
    var p := Join(dir, stem + ".png");
    var i := |dir| + 1 + |stem|;
    assert p[i..i + 4] == ".png";
    ReplaceFirstAtFirstOccurrence(p, ".png", "_diff.png", i);
    assert p[..i] + "_diff.png" + p[i + 4..] == Join(dir, stem + "_diff.png");
    assert '/' !in stem + "_diff.png";
    BasenameOfJoin(dir, stem + "_diff.png");
  }

  /** When the frame's directory already holds ".png", that occurrence is
      the one rewritten, and the diff artifact keeps the frame's own name:
      `logStorage/name`. */
  lemma DiffImageWhenDirectoryHoldsPng(logStorage: string, dir: string, name: string, k: nat)
    requires name != [] && '/' !in name
    requires OccursAt(dir, ".png", k)
    ensures DiffImagePath(logStorage, Join(dir, name)) == Join(logStorage, name)
  {
    var p := Join(dir, name);
    assert p[k..k + 4] == dir[k..k + 4];
    assert OccursAt(p, ".png", k);
    IndexOfFindsFirst(p, ".png");
    var i := IndexOf(p, ".png").value;
    assert i <= k;
    var dir' := dir[..i] + "_diff.png" + dir[i + 4..];
    assert p[..i] + "_diff.png" + p[i + 4..] == Join(dir', name);
    BasenameOfJoin(dir', name);
  }

  /** A frame path without ".png" keeps its base name for the diff artifact. */
  lemma DiffImageWithoutPng(logStorage: string, frame: string)
    requires forall j: nat :: !OccursAt(frame, ".png", j)
    ensures DiffImagePath(logStorage, frame) == Join(logStorage, Basename(frame))
  {
    ReplaceFirstWithoutOccurrence(frame, ".png", "_diff.png");
  }
  /** A pattern occurs in `dir/name` past the separator exactly where it
      occurs in `name`. */
  lemma OccursInJoinedName(dir: string, name: string, pat: string, j: nat)
    ensures OccursAt(Join(dir, name), pat, |dir| + 1 + j) <==> OccursAt(name, pat, j)
  {
    var p := Join(dir, name);
    if j + |pat| <= |name| {
      assert p[|dir| + 1 + j..|dir| + 1 + j + |pat|] == name[j..j + |pat|];
    }
  }

  /** No occurrence before the separator and none in `name` before `i`
      means none in `dir/name` before `name`'s index `i`. */
  lemma NoEarlierOccurrenceInJoin(dir: string, name: string, pat: string, i: nat)
    requires forall j: nat :: j < |dir| + 1 ==> !OccursAt(Join(dir, name), pat, j)
    requires forall j: nat :: j < i ==> !OccursAt(name, pat, j)
    ensures forall j: nat :: j < |dir| + 1 + i ==> !OccursAt(Join(dir, name), pat, j)
  {
    forall j: nat | |dir| + 1 <= j < |dir| + 1 + i ensures !OccursAt(Join(dir, name), pat, j) {
      OccursInJoinedName(dir, name, pat, j - |dir| - 1);
    }
  }

  /** The first occurrence in `name` is the first in `dir/name`. */
  lemma ReplaceFirstInJoinedNameAt(dir: string, name: string, pat: string, rep: string, i: nat)
    requires forall j: nat :: j < |dir| + 1 ==> !OccursAt(Join(dir, name), pat, j)
    requires OccursAt(name, pat, i) && forall j: nat :: j < i ==> !OccursAt(name, pat, j)
    ensures ReplaceFirst(Join(dir, name), pat, rep) == Join(dir, ReplaceFirst(name, pat, rep))
  {
    var p, q := Join(dir, name), |dir| + 1 + i;
    NoEarlierOccurrenceInJoin(dir, name, pat, i);
    OccursInJoinedName(dir, name, pat, i);
    ReplaceFirstAtFirstOccurrence(p, pat, rep, q);
    ReplaceFirstAtFirstOccurrence(name, pat, rep, i);
    assert p[..q] + rep + p[q + |pat|..] == Join(dir, name[..i] + rep + name[i + |pat|..]);
  }

  /** Without an occurrence in `name`, there is none in `dir/name`. */
  lemma ReplaceFirstInJoinedNameWithout(dir: string, name: string, pat: string, rep: string)
    requires forall j: nat :: j < |dir| + 1 ==> !OccursAt(Join(dir, name), pat, j)
    requires forall j: nat :: !OccursAt(name, pat, j)
    ensures ReplaceFirst(Join(dir, name), pat, rep) == Join(dir, ReplaceFirst(name, pat, rep))
  {
    var p := Join(dir, name);
    NoEarlierOccurrenceInJoin(dir, name, pat, |name| + 1);
    assert forall j: nat :: !OccursAt(p, pat, j) by {
      forall j: nat ensures !OccursAt(p, pat, j) {
        if j >= |dir| + 1 + |name| + 1 {
          assert j > |p|;
        }
      }
    }
    ReplaceFirstWithoutOccurrence(p, pat, rep);
    ReplaceFirstWithoutOccurrence(name, pat, rep);
  }

  /** With no occurrence of the pattern up to the separator, replacing in
      `dir/name` replaces in `name`. */
  lemma ReplaceFirstInJoinedName(dir: string, name: string, pat: string, rep: string)
    requires forall j: nat :: j < |dir| + 1 ==> !OccursAt(Join(dir, name), pat, j)
    ensures ReplaceFirst(Join(dir, name), pat, rep) == Join(dir, ReplaceFirst(name, pat, rep))
  {
    IndexOfFindsFirst(name, pat);
    var r := IndexOf(name, pat);
    if r.Some? {
      ReplaceFirstInJoinedNameAt(dir, name, pat, rep, r.value);
    } else {
      ReplaceFirstInJoinedNameWithout(dir, name, pat, rep);
    }
  }

  /** Replacing with separator-free text keeps a name separator-free. */
  lemma ReplaceFirstKeepsNameSeparatorFree(name: string, pat: string, rep: string)
    requires '/' !in name && '/' !in rep
    ensures '/' !in ReplaceFirst(name, pat, rep)
  {
    match IndexOf(name, pat)
    case None =>
    case Some(i) =>
      var a, b := name[..i], name[i + |pat|..];
      assert '/' !in a by {
        forall k | 0 <= k < |a| ensures a[k] != '/' { assert a[k] == name[k]; }
      }
      assert '/' !in b by {
        forall k | 0 <= k < |b| ensures b[k] != '/' { assert b[k] == name[i + |pat| + k]; }
      }
      assert '/' !in a + rep + b;
  }

  /** A frame `dir/name` whose directory holds no ".png" gets the diff
      artifact named by replacing the first ".png" of `name`, whatever
      else the name holds (`x.png.bak` gives `x_diff.png.bak`). */
  lemma DiffImageOfFrameName(logStorage: string, dir: string, name: string)
    requires name != [] && '/' !in name
    requires forall j: nat :: j < |dir| + 1 ==> !OccursAt(Join(dir, name), ".png", j)
    ensures DiffImagePath(logStorage, Join(dir, name)) == Join(logStorage, ReplaceFirst(name, ".png", "_diff.png"))
  {
    var r := ReplaceFirst(name, ".png", "_diff.png");
    ReplaceFirstInJoinedName(dir, name, ".png", "_diff.png");
    ReplaceFirstKeepsNameSeparatorFree(name, ".png", "_diff.png");
    assert r != [] by {
      match IndexOf(name, ".png")
      case None =>
      case Some(i) => assert |r| >= |"_diff.png"|;
    }
    BasenameOfJoin(dir, r);
  }
}
