/**
 A small absolute-path normaliser standing in for `path.join` of the server's
 runtime: the arguments are concatenated with `/`, the result is cut at every
 `/`, empty and `.` segments are dropped, a `..` segment pops the last segment
 kept so far (and stays at the root when there is none), and what is left is
 written back as `/seg/seg/...`.
 */
module Paths {

  /**
   String prefix test, as `String.prototype.startsWith`: character by
   character, with no notion of directories, so `/srv/app-old` starts with
   `/srv/app`.
   */
  function StartsWith(s: string, prefix: string): (b: bool)
    ensures b <==> |prefix| <= |s| && forall i :: 0 <= i < |prefix| ==> s[i] == prefix[i]
  {
    |prefix| <= |s| && s[..|prefix|] == prefix
  }

  /** String suffix test, as `String.prototype.endsWith`: the last characters of `s` are `suffix`. */
  function EndsWith(s: string, suffix: string): (b: bool)
    ensures b <==> |suffix| <= |s| && forall i :: 0 <= i < |suffix| ==> s[|s| - |suffix| + i] == suffix[i]
  {
    |suffix| <= |s| && s[|s| - |suffix|..] == suffix
  }

  /** A string that ends with `t` ends with every suffix of `t`. */
  lemma EndsWithTail(s: string, t: string, k: nat)
    requires EndsWith(s, t) && k <= |t|
    ensures EndsWith(s, t[|t| - k..])
  {
    assert s[|s| - k..] == s[|s| - |t|..][|t| - k..];
  }

  /** A segment that survives normalisation unchanged. */
  predicate Plain(seg: string) {
    seg != "" && seg != "." && seg != ".." && '/' !in seg
  }

  predicate AllPlain(segs: seq<string>) {
    forall i :: 0 <= i < |segs| ==> Plain(segs[i])
  }

  predicate NoSlash(segs: seq<string>) {
    forall i :: 0 <= i < |segs| ==> '/' !in segs[i]
  }

  /** The segments between the `/` characters of `s` (always at least one). */
  function Split(s: string): (r: seq<string>)
    ensures |r| >= 1 && NoSlash(r)
    decreases |s|
  {
    if s == [] then [""]
    else if s[0] == '/' then [""] + Split(s[1..])
    else
      var t := Split(s[1..]);
      [[s[0]] + t[0]] + t[1..]
  }

  /** The segments written back with `/` between them. */
  function Unsplit(segs: seq<string>): string
    requires |segs| >= 1
    decreases |segs|
  {
    if |segs| == 1 then segs[0] else segs[0] + "/" + Unsplit(segs[1..])
  }

  /** Drops empty and `.` segments and lets `..` pop a kept segment. */
  function Resolve(kept: seq<string>, segs: seq<string>): seq<string>
    decreases |segs|
  {
    if segs == [] then kept
    else if segs[0] == "" || segs[0] == "." then Resolve(kept, segs[1..])
    else if segs[0] == ".." then Resolve(if kept == [] then [] else kept[..|kept| - 1], segs[1..])
    else Resolve(kept + [segs[0]], segs[1..])
  }

  /** An absolute path from its segments. */
  function Render(segs: seq<string>): string {
    if segs == [] then "/" else "/" + Unsplit(segs)
  }

  function Normalize(p: string): string {
    Render(Resolve([], Split(p)))
  }

  /**
   The stand-in for `path.join(base, rel)`: the result is an absolute path
   that is already normalised.
   */
  function Join(base: string, rel: string): (r: string)
    ensures |r| >= 1 && r[0] == '/'
    ensures Normalize(r) == r
  {
    NormalizeIdempotent(base + "/" + rel);
    Normalize(base + "/" + rel)
  }

  /** True when no segment of `rel` is `..`. */
  predicate NoParentSegment(rel: string) {
    var segs := Split(rel);
    forall i :: 0 <= i < |segs| ==> segs[i] != ".."
  }

  // ---------------------------------------------------------------------
  // Split and Unsplit are inverse to each other

  lemma {:induction false} UnsplitSplit(s: string)
    ensures Unsplit(Split(s)) == s
    decreases |s|
  {
    if s != [] {
      UnsplitSplit(s[1..]);
      var t := Split(s[1..]);
      if s[0] == '/' {
        assert Split(s) == [""] + t;
        assert Unsplit(Split(s)) == "" + "/" + Unsplit(t);
      } else {
        assert Split(s) == [[s[0]] + t[0]] + t[1..];
        if |t| == 1 {
          assert Unsplit(Split(s)) == [s[0]] + t[0];
        } else {
          assert Unsplit(Split(s)) == [s[0]] + t[0] + "/" + Unsplit(t[1..]);
        }
        assert s == [s[0]] + s[1..];
      }
    }
  }

  lemma {:induction false} SplitSingle(w: string)
    requires '/' !in w
    ensures Split(w) == [w]
    decreases |w|
  {
    if w != [] {
      assert '/' !in w[1..] by {
        forall k | 0 <= k < |w[1..]| ensures w[1..][k] != '/' { assert w[1..][k] == w[k + 1]; }
      }
      SplitSingle(w[1..]);
      assert w == [w[0]] + w[1..];
    }
  }

  /** Cutting at a `/` that joins two strings splits each of them. */
  lemma {:induction false} SplitConcat(x: string, y: string)
    ensures Split(x + "/" + y) == Split(x) + Split(y)
    decreases |x|
  {
    var s := x + "/" + y;
    if x == [] {
      assert s[1..] == y;
    } else {
      assert s[1..] == x[1..] + "/" + y;
      SplitConcat(x[1..], y);
    }
  }

  lemma {:induction false} SplitUnsplit(segs: seq<string>)
    requires |segs| >= 1 && NoSlash(segs)
    ensures Split(Unsplit(segs)) == segs
    decreases |segs|
  {
    SplitSingle(segs[0]);
    if |segs| > 1 {
      SplitUnsplit(segs[1..]);
      SplitConcat(segs[0], Unsplit(segs[1..]));
      assert segs == [segs[0]] + segs[1..];
    }
  }

  lemma {:induction false} UnsplitConcat(a: seq<string>, b: seq<string>)
    requires |a| >= 1 && |b| >= 1
    ensures Unsplit(a + b) == Unsplit(a) + "/" + Unsplit(b)
    decreases |a|
  {
    if |a| == 1 {
      assert (a + b)[1..] == b;
    } else {
      assert (a + b)[1..] == a[1..] + b;
      UnsplitConcat(a[1..], b);
    }
  }

  // ---------------------------------------------------------------------
  // Resolve

  /** Resolving a concatenation resolves the first part, then the second. */
  lemma {:induction false} ResolveConcat(kept: seq<string>, a: seq<string>, b: seq<string>)
    ensures Resolve(kept, a + b) == Resolve(Resolve(kept, a), b)
    decreases |a|
  {
    if a == [] {
      assert a + b == b;
    } else {
      assert (a + b)[0] == a[0] && (a + b)[1..] == a[1..] + b;
      var next := if a[0] == "" || a[0] == "." then kept
                  else if a[0] == ".." then (if kept == [] then [] else kept[..|kept| - 1])
                  else kept + [a[0]];
      ResolveConcat(next, a[1..], b);
    }
  }

  /** Plain segments are kept as they are. */
  lemma {:induction false} ResolveAllPlain(kept: seq<string>, segs: seq<string>)
    requires AllPlain(segs)
    ensures Resolve(kept, segs) == kept + segs
    decreases |segs|
  {
    if segs != [] {
      assert AllPlain(segs[1..]) by {
        forall k | 0 <= k < |segs[1..]| ensures Plain(segs[1..][k]) { assert segs[1..][k] == segs[k + 1]; }
      }
      ResolveAllPlain(kept + [segs[0]], segs[1..]);
      assert kept + [segs[0]] + segs[1..] == kept + segs;
    }
  }

  /** Resolution only ever keeps plain segments. */
  lemma {:induction false} ResolveKeepsPlain(kept: seq<string>, segs: seq<string>)
    requires AllPlain(kept) && NoSlash(segs)
    ensures AllPlain(Resolve(kept, segs))
    decreases |segs|
  {
    if segs != [] {
      assert NoSlash(segs[1..]) by {
        forall k | 0 <= k < |segs[1..]| ensures '/' !in segs[1..][k] { assert segs[1..][k] == segs[k + 1]; }
      }
      assert '/' !in segs[0] by { assert segs[0] == segs[0 + 0]; }
      if segs[0] == "" || segs[0] == "." {
        ResolveKeepsPlain(kept, segs[1..]);
      } else if segs[0] == ".." {
        ResolveKeepsPlain(if kept == [] then [] else kept[..|kept| - 1], segs[1..]);
      } else {
        ResolveKeepsPlain(kept + [segs[0]], segs[1..]);
      }
    }
  }

  /** Without `..`, resolution never drops what was already kept. */
  lemma {:induction false} ResolveExtends(kept: seq<string>, segs: seq<string>)
    requires forall i :: 0 <= i < |segs| ==> segs[i] != ".."
    ensures |kept| <= |Resolve(kept, segs)| && Resolve(kept, segs)[..|kept|] == kept
    decreases |segs|
  {
    if segs != [] {
      assert forall i :: 0 <= i < |segs[1..]| ==> segs[1..][i] != ".." by {
        forall i | 0 <= i < |segs[1..]| ensures segs[1..][i] != ".." { assert segs[1..][i] == segs[i + 1]; }
      }
      assert segs[0] != "..";
      if segs[0] == "" || segs[0] == "." {
        ResolveExtends(kept, segs[1..]);
      } else {
        ResolveExtends(kept + [segs[0]], segs[1..]);
        var r := Resolve(kept, segs);
        assert r[..|kept| + 1][..|kept|] == r[..|kept|];
      }
    }
  }

  // ---------------------------------------------------------------------
  // Render and Normalize

  /** A rendered path is read back to the same segments. */
  lemma ResolveRender(segs: seq<string>)
    requires AllPlain(segs)
    ensures Resolve([], Split(Render(segs))) == segs
  {
    if segs == [] {
      assert Split("/") == ["", ""] by { SplitConcat("", ""); }
      assert Resolve([], ["", ""]) == Resolve([], [""]) == Resolve([], []);
    } else {
      assert NoSlash(segs);
      SplitUnsplit(segs);
      SplitConcat("", Unsplit(segs));
      assert "" + "/" + Unsplit(segs) == Render(segs);
      assert Split(Render(segs)) == [""] + segs;
      ResolveAllPlain([], segs);
    }
  }

  /** Normalising a normalised path changes nothing. */
  lemma NormalizeIdempotent(p: string)
    ensures Normalize(Normalize(p)) == Normalize(p)
  {
    ResolveKeepsPlain([], Split(p));
    ResolveRender(Resolve([], Split(p)));
  }

  /** A path rendered from more segments extends the shorter one as a string. */
  lemma RenderExtends(kept: seq<string>, more: seq<string>)
    ensures StartsWith(Render(kept + more), Render(kept))
  {
    if kept != [] && more != [] {
      UnsplitConcat(kept, more);
      assert Render(kept + more) == Render(kept) + "/" + Unsplit(more);
      assert Render(kept + more)[..|Render(kept)|] == Render(kept);
    } else if more == [] {
      assert kept + more == kept;
    }
  }

  /** A rendered path ends with its last segment, after a `/`. */
  lemma RenderLast(kept: seq<string>, last: string)
    ensures EndsWith(Render(kept + [last]), "/" + last)
  {
    if kept != [] {
      UnsplitConcat(kept, [last]);
      assert Render(kept + [last]) == "/" + Unsplit(kept) + ("/" + last);
    }
  }

  /** A path with one more segment is its parent, a `/` unless the parent is the root, and the segment. */
  lemma RenderLastSegment(kept: seq<string>, last: string)
    ensures Render(kept + [last]) == Render(kept) + (if kept == [] then "" else "/") + last
  {
    if kept == [] {
      assert kept + [last] == [last];
    } else {
      UnsplitConcat(kept, [last]);
    }
  }

  /** Joining onto a normalised base resolves the relative part onto the base's segments. */
  lemma JoinOnto(baseSegs: seq<string>, rel: string)
    requires AllPlain(baseSegs)
    ensures Join(Render(baseSegs), rel) == Render(Resolve(baseSegs, Split(rel)))
  {
    SplitConcat(Render(baseSegs), rel);
    ResolveConcat([], Split(Render(baseSegs)), Split(rel));
    ResolveRender(baseSegs);
  }

  /** Joining a plain name onto any base appends that name. */
  lemma JoinName(base: string, name: string)
    requires Plain(name)
    ensures Join(base, name) == Render(Resolve([], Split(base)) + [name])
    ensures EndsWith(Join(base, name), "/" + name)
  {
    SplitConcat(base, name);
    SplitSingle(name);
    ResolveConcat([], Split(base), [name]);
    ResolveAllPlain(Resolve([], Split(base)), [name]);
    RenderLast(Resolve([], Split(base)), name);
  }

  /**
   A trailing `/` is dropped: `/name/` and `/name` join to the same path
   (where `path.join` would keep the `/`).
   */
  lemma TrailingSlashDropped(baseSegs: seq<string>, name: string)
    requires AllPlain(baseSegs) && Plain(name)
    ensures Join(Render(baseSegs), "/" + name + "/") == Join(Render(baseSegs), "/" + name)
  {
    assert Split("/" + name) == ["", name] by {
      SplitConcat("", name);
      SplitSingle(name);
      assert "" + "/" + name == "/" + name;
    }
    assert Split("/" + name + "/") == ["", name, ""] by {
      SplitConcat("/" + name, "");
      assert "/" + name + "/" == ("/" + name) + "/" + "";
    }
    JoinOnto(baseSegs, "/" + name);
    JoinOnto(baseSegs, "/" + name + "/");
    assert ["", name][1..] == [name] && ["", name, ""][1..] == [name, ""] && [name, ""][1..] == [""];
    assert Resolve(baseSegs, ["", name, ""]) == Resolve(baseSegs, [name, ""]) == Resolve(baseSegs + [name], [""])
        == Resolve(baseSegs + [name], []);
    assert Resolve(baseSegs, ["", name]) == Resolve(baseSegs, [name]) == Resolve(baseSegs + [name], []);
  }

  /** Without a `..` segment, joining onto a normalised base stays under it as a string. */
  lemma JoinStaysUnder(baseSegs: seq<string>, rel: string)
    requires AllPlain(baseSegs) && NoParentSegment(rel)
    ensures StartsWith(Join(Render(baseSegs), rel), Render(baseSegs))
  {
    JoinOnto(baseSegs, rel);
    var r := Resolve(baseSegs, Split(rel));
    ResolveExtends(baseSegs, Split(rel));
    assert r == baseSegs + r[|baseSegs|..];
    RenderExtends(baseSegs, r[|baseSegs|..]);
  }
}
