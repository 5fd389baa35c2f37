/**
 * The parts of Node's `path.posix` that the API handlers rely on:
 * `join`, `normalize` and `basename`, stated on the '/'-separated
 * segments of a path.
 *
 * `normalize` walks the segments left to right with a stack: an empty
 * segment or "." is dropped, ".." pops the previous segment, and any
 * other segment is pushed. An absolute path never climbs above the root
 * (a ".." with nothing to pop is dropped); a relative one keeps the ".."
 * segments it cannot pop at its front.
 */
module PosixPath {
  import Text

  /** `s.split('/')`: the pieces between separators, at least one. */
  function Split(s: string): (r: seq<string>)
    ensures |r| >= 1
    ensures forall i :: 0 <= i < |r| ==> '/' !in r[i]
  {
    Text.Pieces(s, '/')
  }

  /** `segs.join('/')` */
  function Join(segs: seq<string>): (s: string)
  {
    if segs == [] then ""
    else if |segs| == 1 then segs[0]
    else segs[0] + "/" + Join(segs[1..])
  }

  /** No piece of `segs` holds a separator. */
  predicate Unseparated(segs: seq<string>)
  {
    forall i :: 0 <= i < |segs| ==> '/' !in segs[i]
  }

  /** A segment that normalisation keeps as it is. */
  predicate Plain(seg: string)
  {
    seg != "" && seg != "." && seg != ".." && '/' !in seg
  }

  /** Every segment is plain. */
  predicate AllPlain(segs: seq<string>)
  {
    forall i :: 0 <= i < |segs| ==> Plain(segs[i])
  }

  /** Some segment is "..". */
  predicate ClimbsUp(segs: seq<string>)
  {
    exists i :: 0 <= i < |segs| && segs[i] == ".."
  }

  /**
   * A stack that normalisation can produce: plain segments, preceded (for a
   * relative path only) by a run of "..".
   */
  predicate Normal(stack: seq<string>, absolute: bool)
  {
    && (forall i :: 0 <= i < |stack| ==> Plain(stack[i]) || (!absolute && stack[i] == ".."))
    && (forall i, j :: 0 <= i < j < |stack| && stack[j] == ".." ==> stack[i] == "..")
  }

  /** One step of normalisation: what segment `seg` does to the stack. */
  function Step(stack: seq<string>, seg: string, absolute: bool): (next: seq<string>)
  {
    if seg == "" || seg == "." then stack
    else if seg == ".." then
      if |stack| > 0 && stack[|stack| - 1] != ".." then stack[..|stack| - 1]
      else if absolute then stack
      else stack + [".."]
    else stack + [seg]
  }

  /** The stack left after feeding `segs`, left to right, onto `stack`. */
  function Resolve(stack: seq<string>, segs: seq<string>, absolute: bool): (result: seq<string>)
    decreases |segs|
  {
    if segs == [] then stack
    else Resolve(Step(stack, segs[0], absolute), segs[1..], absolute)
  }

  /** `path.posix.normalize(p)` */
  function Normalize(p: string): (q: string)
    ensures p != [] && p[0] == '/' ==> q != [] && q[0] == '/'
  {
    if p == [] then "."
    else
      var absolute := p[0] == '/';
      var trailing := p[|p| - 1] == '/';
      var segs := Resolve([], Split(p), absolute);
      if segs == [] then
        (if absolute then "/" else if trailing then "./" else ".")
      else
        Render(segs, absolute, trailing)
  }

  /** A stack written out as a path, with its leading and trailing separator. */
  function Render(segs: seq<string>, absolute: bool, trailing: bool): (s: string)
  {
    (if absolute then "/" else "") + Join(segs) + (if trailing then "/" else "")
  }

  /** `path.posix.join(...args)` */
  function JoinPaths(args: seq<string>): (joined: string)
  {
    var parts := Text.Filled(args);
    if parts == [] then "." else Normalize(Join(parts))
  }

  /** The last non-empty segment, or "" when there is none. */
  function LastNonEmpty(segs: seq<string>): (r: string)
    ensures r == "" || r in segs
  {
    if segs == [] then ""
    else if segs[|segs| - 1] != "" then segs[|segs| - 1]
    else LastNonEmpty(segs[..|segs| - 1])
  }

  /** `path.posix.basename(p)`: trailing separators are ignored. */
  function Basename(p: string): (r: string)
    ensures '/' !in r
  {
    LastNonEmpty(Split(p))
  }

  // ---------------------------------------------------------------------
  // Split and Join

  /** Splitting and joining again gives back the original string. */
  lemma {:induction false} JoinSplit(s: string)
    ensures Join(Split(s)) == s
  {
    if s == [] {
    } else if s[0] == '/' {
      JoinSplit(s[1..]);
      var rest := Split(s[1..]);
      assert Join([""] + rest) == "" + "/" + Join(rest);
    } else {
      JoinSplit(s[1..]);
      var rest := Split(s[1..]);
      var head := [s[0]] + rest[0];
      if |rest| == 1 {
        assert Join([head] + rest[1..]) == head;
      } else {
        assert ([head] + rest[1..])[1..] == rest[1..];
        assert Join(rest) == rest[0] + "/" + Join(rest[1..]);
      }
    }
  }

  /** A string without separators is a single segment. */
  lemma SplitUnseparated(s: string)
    requires '/' !in s
    ensures Split(s) == [s]
  {
    Text.OnePiece(s, '/');
  }

  /** Splitting at a separator splits the pieces on either side of it. */
  lemma {:induction false} SplitAppend(a: string, b: string)
    ensures Split(a + "/" + b) == Split(a) + Split(b)
  {
    if a == [] {
      assert a + "/" + b == "/" + b;
      assert ("/" + b)[1..] == b;
    } else {
      assert (a + "/" + b)[0] == a[0];
      assert (a + "/" + b)[1..] == a[1..] + "/" + b;
      SplitAppend(a[1..], b);
    }
  }

  /** A path of three separator-free pieces splits into those pieces. */
  lemma SplitThree(a: string, b: string, c: string)
    requires '/' !in a && '/' !in b && '/' !in c
    ensures Split(a + "/" + b + "/" + c) == [a, b, c]
  {
    assert a + "/" + b + "/" + c == a + "/" + (b + "/" + c);
    SplitAppend(a, b + "/" + c);
    SplitAppend(b, c);
    SplitUnseparated(a);
    SplitUnseparated(b);
    SplitUnseparated(c);
  }

  /** Joining separator-free segments and splitting again gives them back. */
  lemma {:induction false} SplitJoin(segs: seq<string>)
    requires |segs| >= 1 && Unseparated(segs)
    ensures Split(Join(segs)) == segs
  {
    if |segs| == 1 {
      SplitUnseparated(segs[0]);
    } else {
      SplitJoin(segs[1..]);
      SplitAppend(segs[0], Join(segs[1..]));
      SplitUnseparated(segs[0]);
    }
  }

  /** Joining two non-empty lists puts a separator between them. */
  lemma {:induction false} JoinAppend(a: seq<string>, b: seq<string>)
    requires |a| >= 1 && |b| >= 1
    ensures Join(a + b) == Join(a) + "/" + Join(b)
  {
    if |a| == 1 {
      assert (a + b)[1..] == b;
    } else {
      assert (a + b)[1..] == a[1..] + b;
      JoinAppend(a[1..], b);
    }
  }

  // ---------------------------------------------------------------------
  // Normalisation

  /** Feeding two lists of segments is feeding one, then the other. */
  lemma {:induction false} ResolveAppend(stack: seq<string>, a: seq<string>, b: seq<string>, absolute: bool)
    ensures Resolve(stack, a + b, absolute) == Resolve(Resolve(stack, a, absolute), b, absolute)
    decreases |a|
  {
    if a == [] {
      assert a + b == b;
    } else {
      assert (a + b)[0] == a[0];
      assert (a + b)[1..] == a[1..] + b;
      ResolveAppend(Step(stack, a[0], absolute), a[1..], b, absolute);
    }
  }

  /** Plain segments are pushed as they are. */
  lemma {:induction false} ResolvePlain(stack: seq<string>, segs: seq<string>, absolute: bool)
    requires AllPlain(segs)
    ensures Resolve(stack, segs, absolute) == stack + segs
    decreases |segs|
  {
    if segs != [] {
      ResolvePlain(stack + [segs[0]], segs[1..], absolute);
      assert stack + [segs[0]] + segs[1..] == stack + segs;
    }
  }

  /** Without "..", normalisation never removes what is already on the stack. */
  lemma {:induction false} ResolveExtends(stack: seq<string>, segs: seq<string>, absolute: bool)
    requires !ClimbsUp(segs)
    ensures |Resolve(stack, segs, absolute)| >= |stack|
    ensures Resolve(stack, segs, absolute)[..|stack|] == stack
    decreases |segs|
  {
    if segs != [] {
      var next := Step(stack, segs[0], absolute);
      assert segs[0] != "..";
      assert !ClimbsUp(segs[1..]) by {
        forall i | 0 <= i < |segs[1..]| ensures segs[1..][i] != ".." {
          assert segs[1..][i] == segs[i + 1];
        }
      }
      ResolveExtends(next, segs[1..], absolute);
      assert next[..|stack|] == stack;
    }
  }

  /** Every step keeps the stack in normal form. */
  lemma StepNormal(stack: seq<string>, seg: string, absolute: bool)
    requires Normal(stack, absolute) && '/' !in seg
    ensures Normal(Step(stack, seg, absolute), absolute)
  {
    var next := Step(stack, seg, absolute);
    if seg == ".." && !(|stack| > 0 && stack[|stack| - 1] != "..") && !absolute {
      assert next == stack + [".."];
      forall i, j | 0 <= i < j < |next| && next[j] == ".." ensures next[i] == ".." {
        if j == |stack| && |stack| > 0 {
          assert stack[|stack| - 1] == "..";
        }
      }
    }
  }

  /** Normalisation yields a stack in normal form. */
  lemma {:induction false} ResolveNormal(stack: seq<string>, segs: seq<string>, absolute: bool)
    requires Normal(stack, absolute) && Unseparated(segs)
    ensures Normal(Resolve(stack, segs, absolute), absolute)
    decreases |segs|
  {
    if segs != [] {
      StepNormal(stack, segs[0], absolute);
      ResolveNormal(Step(stack, segs[0], absolute), segs[1..], absolute);
    }
  }

  /** A stack in normal form passes through normalisation unchanged. */
  lemma {:induction false} ResolveOfNormal(stack: seq<string>, segs: seq<string>, absolute: bool)
    requires Normal(stack + segs, absolute)
    ensures Resolve(stack, segs, absolute) == stack + segs
    decreases |segs|
  {
    if segs != [] {
      var all := stack + segs;
      assert all[|stack|] == segs[0];
      if segs[0] == ".." {
        assert !absolute;
        if |stack| > 0 {
          assert all[|stack| - 1] == stack[|stack| - 1];
        }
      }
      assert Step(stack, segs[0], absolute) == stack + [segs[0]];
      assert stack + [segs[0]] + segs[1..] == all;
      ResolveOfNormal(stack + [segs[0]], segs[1..], absolute);
    }
  }

  /** The separator-free segments a normalised path is made of. */
  lemma NormalUnseparated(stack: seq<string>, absolute: bool)
    requires Normal(stack, absolute)
    ensures Unseparated(stack)
  {
    forall i | 0 <= i < |stack| ensures '/' !in stack[i] {
      assert Plain(stack[i]) || stack[i] == "..";
    }
  }

  /** The string form of a non-empty normal stack. */
  lemma JoinNormalEnds(segs: seq<string>, absolute: bool)
    requires segs != [] && Normal(segs, absolute)
    ensures Join(segs) != ""
    ensures Join(segs)[0] != '/' && Join(segs)[|Join(segs)| - 1] != '/'
  {
    var first, last := segs[0], segs[|segs| - 1];
    assert first != "" && '/' !in first;
    assert last != "" && '/' !in last;
    if |segs| > 1 {
      JoinAppend(segs[..|segs| - 1], [last]);
      assert segs[..|segs| - 1] + [last] == segs;
      assert Join(segs) == Join(segs[..|segs| - 1]) + "/" + last;
      assert Join(segs) == first + "/" + Join(segs[1..]);
    }
  }

  /** The segments of a rendered non-empty normal stack. */
  lemma SplitRender(segs: seq<string>, absolute: bool, trailing: bool)
    requires segs != [] && Normal(segs, absolute)
    ensures Split(Render(segs, absolute, trailing))
      == (if absolute then [""] else []) + segs + (if trailing then [""] else [])
  {
    NormalUnseparated(segs, absolute);
    SplitJoin(segs);
    var body := Join(segs);
    if absolute && trailing {
      assert Render(segs, absolute, trailing) == "" + "/" + (body + "/" + "");
      SplitAppend("", body + "/" + "");
      SplitAppend(body, "");
    } else if absolute {
      assert Render(segs, absolute, trailing) == "" + "/" + body;
      SplitAppend("", body);
    } else if trailing {
      assert Render(segs, absolute, trailing) == body + "/" + "";
      SplitAppend(body, "");
    } else {
      assert Render(segs, absolute, trailing) == body;
    }
  }

  /** The first and last characters of a rendered non-empty normal stack. */
  lemma RenderEnds(segs: seq<string>, absolute: bool, trailing: bool)
    requires segs != [] && Normal(segs, absolute)
    ensures var q := Render(segs, absolute, trailing);
      q != [] && (q[0] == '/' <==> absolute) && (q[|q| - 1] == '/' <==> trailing)
  {
    JoinNormalEnds(segs, absolute);
  }

  /** Resolving a rendered non-empty normal stack gives the stack back. */
  lemma ResolveRender(segs: seq<string>, absolute: bool, trailing: bool)
    requires segs != [] && Normal(segs, absolute)
    ensures Resolve([], Split(Render(segs, absolute, trailing)), absolute) == segs
  {
    var lead: seq<string> := if absolute then [""] else [];
    var tail: seq<string> := if trailing then [""] else [];
    SplitRender(segs, absolute, trailing);
    assert lead + segs + tail == lead + (segs + tail);
    ResolveAppend([], lead, segs + tail, absolute);
    assert Resolve([], lead, absolute) == [];
    ResolveAppend([], segs, tail, absolute);
    assert [] + segs == segs;
    ResolveOfNormal([], segs, absolute);
  }

  /** Normalising the rendering of a non-empty normal stack gives it back. */
  lemma NormalizeRender(segs: seq<string>, absolute: bool, trailing: bool)
    requires segs != [] && Normal(segs, absolute)
    ensures Normalize(Render(segs, absolute, trailing)) == Render(segs, absolute, trailing)
  {
    RenderEnds(segs, absolute, trailing);
    ResolveRender(segs, absolute, trailing);
  }

  /** Normalising a normalised path changes nothing. */
  lemma NormalizeIdempotent(p: string)
    ensures Normalize(Normalize(p)) == Normalize(p)
  {
    if p != [] {
      var absolute := p[0] == '/';
      var trailing := p[|p| - 1] == '/';
      var segs := Resolve([], Split(p), absolute);
      ResolveNormal([], Split(p), absolute);
      if segs == [] {
        if absolute {
          assert Split("/") == ["", ""] by { SplitAppend("", ""); }
        } else if trailing {
          assert Split("./") == [".", ""] by { SplitAppend(".", ""); SplitUnseparated("."); }
        } else {
          SplitUnseparated(".");
        }
      } else {
        NormalizeRender(segs, absolute, trailing);
      }
    }
  }

  /** A non-empty string starts with the first character of its first segment. */
  lemma FirstSegmentStart(s: string)
    requires Split(s)[0] != ""
    ensures s != [] && s[0] == Split(s)[0][0]
  {
    JoinSplit(s);
    var segs := Split(s);
    if |segs| > 1 {
      assert Join(segs) == segs[0] + "/" + Join(segs[1..]);
    }
  }

  /** `path.join(a, b)` of two non-empty strings normalises `a/b`. */
  lemma JoinPathsTwo(a: string, b: string)
    requires a != "" && b != ""
    ensures JoinPaths([a, b]) == Normalize(a + "/" + b)
  {
    assert Text.Filled([a, b]) == [a, b] by {
      assert [a, b][1..] == [b];
      assert Text.Filled([b]) == [b] + Text.Filled([]);
    }
    assert Join([a, b]) == a + "/" + Join([b]);
  }

  /** Normalising a relative path without trailing separator joins its stack. */
  lemma NormalizeRelative(p: string)
    requires p != [] && p[0] != '/' && p[|p| - 1] != '/'
    requires Resolve([], Split(p), false) != []
    ensures Normalize(p) == Join(Resolve([], Split(p), false))
  {
    assert [] + Join(Resolve([], Split(p), false)) + [] == Join(Resolve([], Split(p), false));
  }

  /**
   * `path.join("./d1/.../dk", name)` for a plain `name` is "d1/.../dk/name":
   * the leading "." is dropped and nothing else changes.
   */
  lemma JoinDotDirChild(dir: string, dirSegs: seq<string>, name: string)
    requires Split(dir) == ["."] + dirSegs && dirSegs != [] && AllPlain(dirSegs)
    requires Plain(name)
    ensures JoinPaths([dir, name]) == Join(dirSegs) + "/" + name
    ensures Basename(JoinPaths([dir, name])) == name
  {
    FirstSegmentStart(dir);
    JoinPathsTwo(dir, name);
    var p := dir + "/" + name;
    SplitAppend(dir, name);
    SplitUnseparated(name);
    var segs := ["."] + dirSegs + [name];
    assert Split(p) == segs;
    var kept := dirSegs + [name];
    assert Resolve([], segs, false) == Resolve([], kept, false) by {
      assert segs[0] == "." && segs[1..] == kept;
    }
    assert AllPlain(kept) by {
      forall i | 0 <= i < |kept| ensures Plain(kept[i]) {
        if i < |dirSegs| { assert kept[i] == dirSegs[i]; }
      }
    }
    ResolvePlain([], kept, false);
    assert [] + kept == kept;
    assert p[0] == '.' && p[|p| - 1] == name[|name| - 1];
    NormalizeRelative(p);
    JoinAppend(dirSegs, [name]);
    BasenameOfChild(Join(dirSegs), name);
  }

  // ---------------------------------------------------------------------
  // Basename

  /** The basename of `dir/name` is `name`. */
  lemma BasenameOfChild(dir: string, name: string)
    requires name != "" && '/' !in name
    ensures Basename(dir + "/" + name) == name
  {
    SplitAppend(dir, name);
    SplitUnseparated(name);
  }
}
