/**
 * The download handler (`src/pages/api/download.js`): it streams the file
 * `path.join('/tmp/cropped', sessionId, fileName)` as a JPEG attachment.
 *
 * The file system is replaced by the set of paths that exist; what the
 * stream then sends is not modelled.
 */
module Download {
  import PosixPath
  import Text

  const Root := "/tmp/cropped"
  const MissingMessage := "Session ID or file name missing"
  const NotFoundMessage := "File not found"
  const ContentType := "image/jpeg"
  const DispositionPrefix := "attachment; filename="

  /**
   * One entry of `req.query`: no value, a single string, or (when the key
   * is repeated) an array of strings.
   */
  datatype Param = Absent | One(value: string) | Many(values: seq<string>)

  /** JavaScript truthiness of a query value: an array is truthy even when empty. */
  predicate Truthy(p: Param)
  {
    p.Many? || (p.One? && p.value != "")
  }

  /** The two entries of `req.query` the handler reads. */
  datatype Query = Query(sessionId: Param, fileName: Param)

  /**
   * What the handler does: a JSON reply, the file streamed with status 200
   * and the two headers, or an exception nobody catches (Next.js then
   * answers 500).
   */
  datatype Response =
    | Json(status: int, message: string)
    | Stream(contentType: string, disposition: string, path: string)
    | Crash

  /** A header value Node accepts: tab, printable ASCII and the bytes 0x80 to 0xff. */
  predicate HeaderSafe(s: string)
  {
    forall i :: 0 <= i < |s| ==> s[i] == '\t' || (32 <= s[i] as int <= 126) || (128 <= s[i] as int <= 255)
  }

  /** The fixed start of the Content-Disposition value never makes it unsafe. */
  lemma HeaderSafePrefixed(fileName: string)
    ensures HeaderSafe(DispositionPrefix + fileName) <==> HeaderSafe(fileName)
  {
    var s := DispositionPrefix + fileName;
    assert HeaderSafe(DispositionPrefix);
    forall i | 0 <= i < |fileName| ensures s[|DispositionPrefix| + i] == fileName[i] { }
  }

  /** The path the handler looks up: `path.join('/tmp/cropped', sessionId, fileName)`. */
  function FilePath(sessionId: string, fileName: string): (p: string)
    ensures p != "" && p[0] == '/'
  {
    var args := [Root, sessionId, fileName];
    assert Text.Filled(args)[0] == Root by {
      assert args[0] != "";
    }
    assert PosixPath.Join(Text.Filled(args))[0] == '/';
    PosixPath.JoinPaths(args)
  }

  /**
   * `handler(req, res)` for the query `query` when exactly the paths in
   * `existing` exist. The method is never looked at.
   */
  function Handle(query: Query, existing: set<string>): (r: Response)
    ensures r == Json(400, MissingMessage) <==> !Truthy(query.sessionId) || !Truthy(query.fileName)
    ensures r == Json(404, NotFoundMessage) <==>
      && query.sessionId.One? && query.sessionId.value != ""
      && query.fileName.One? && query.fileName.value != ""
      && FilePath(query.sessionId.value, query.fileName.value) !in existing
    ensures r.Crash? <==>
      && Truthy(query.sessionId) && Truthy(query.fileName)
      && (query.sessionId.Many? || query.fileName.Many? ||
          (FilePath(query.sessionId.value, query.fileName.value) in existing && !HeaderSafe(query.fileName.value)))
    ensures r.Stream? <==>
      && query.sessionId.One? && query.sessionId.value != ""
      && query.fileName.One? && query.fileName.value != ""
      && FilePath(query.sessionId.value, query.fileName.value) in existing
      && HeaderSafe(query.fileName.value)
    ensures r.Stream? ==>
      && query.sessionId.One? && query.fileName.One?
      && r.path == FilePath(query.sessionId.value, query.fileName.value)
      && r.path in existing
      && r.contentType == ContentType
      && r.disposition == DispositionPrefix + query.fileName.value
  {
    if !Truthy(query.sessionId) || !Truthy(query.fileName) then Json(400, MissingMessage)
    // `path.join` refuses an argument that is not a string
    else if query.sessionId.Many? || query.fileName.Many? then Crash
    else
      var filePath := FilePath(query.sessionId.value, query.fileName.value);
      if filePath !in existing then Json(404, NotFoundMessage)
      else
        var disposition := DispositionPrefix + query.fileName.value;
        HeaderSafePrefixed(query.fileName.value);
        // `setHeader` refuses a value with a control character
        if !HeaderSafe(disposition) then Crash
        else Stream(ContentType, disposition, filePath)
  }

  // ---------------------------------------------------------------------
  // Where the served file can be

  /** `p` is the root directory itself or lies somewhere below it. */
  predicate InsideRoot(p: string)
  {
    |p| >= |Root| && p[..|Root|] == Root && (|p| == |Root| || p[|Root|] == '/')
  }

  /** The segments of `Root`. */
  lemma SplitRoot()
    ensures PosixPath.Split(Root) == ["", "tmp", "cropped"]
  {
    assert Root == "" + "/" + "tmp" + "/" + "cropped";
    PosixPath.SplitThree("", "tmp", "cropped");
  }

  /** The segments of the string `path.join` normalises. */
  lemma SplitJoined(sessionId: string, fileName: string)
    ensures PosixPath.Split(Root + "/" + sessionId + "/" + fileName)
         == ["", "tmp", "cropped"] + (PosixPath.Split(sessionId) + PosixPath.Split(fileName))
  {
    PosixPath.SplitAppend(Root + "/" + sessionId, fileName);
    PosixPath.SplitAppend(Root, sessionId);
    SplitRoot();
  }

  /** The stack after the root's own segments. */
  lemma ResolveRoot(rest: seq<string>)
    ensures PosixPath.Resolve([], ["", "tmp", "cropped"] + rest, true)
         == PosixPath.Resolve(["tmp", "cropped"], rest, true)
  {
    PosixPath.ResolveAppend([], ["", "tmp", "cropped"], rest, true);
    assert PosixPath.Resolve([], ["", "tmp", "cropped"], true) == ["tmp", "cropped"];
  }

  /** An absolute path whose stack starts with "tmp", "cropped" is written inside the root. */
  lemma RenderInsideRoot(segs: seq<string>, trailing: bool)
    requires |segs| >= 2 && segs[..2] == ["tmp", "cropped"]
    ensures InsideRoot(PosixPath.Render(segs, true, trailing))
  {
    var tail := if trailing then "/" else "";
    if |segs| == 2 {
      assert segs == ["tmp", "cropped"];
      assert PosixPath.Join(segs) == "tmp" + "/" + "cropped";
      assert PosixPath.Render(segs, true, trailing) == Root + tail;
    } else {
      assert segs == ["tmp", "cropped"] + segs[2..];
      PosixPath.JoinAppend(["tmp", "cropped"], segs[2..]);
      assert PosixPath.Join(["tmp", "cropped"]) == "tmp" + "/" + "cropped";
      var rest := PosixPath.Join(segs[2..]);
      assert PosixPath.Render(segs, true, trailing) == Root + ("/" + rest + tail);
    }
  }

  /** `path.join` of three non-empty strings normalises them joined by separators. */
  lemma JoinPathsThree(a: string, b: string, c: string)
    requires a != "" && b != "" && c != ""
    ensures PosixPath.JoinPaths([a, b, c]) == PosixPath.Normalize(a + "/" + b + "/" + c)
  {
    var args := [a, b, c];
    assert Text.Filled([c]) == [c] by {
      assert [c][1..] == [];
    }
    assert Text.Filled([b, c]) == [b, c] by {
      assert [b, c][1..] == [c];
    }
    assert Text.Filled(args) == args by {
      assert args[1..] == [b, c];
    }
    assert PosixPath.Join([b, c]) == b + "/" + c by {
      assert [b, c][1..] == [c];
    }
    assert PosixPath.Join(args) == a + "/" + (b + "/" + c) by {
      assert args[1..] == [b, c];
    }
    assert a + "/" + (b + "/" + c) == a + "/" + b + "/" + c;
  }

  /** The segments of `segs` include no ".." when neither part does. */
  lemma NoClimbAppend(a: seq<string>, b: seq<string>)
    requires !PosixPath.ClimbsUp(a) && !PosixPath.ClimbsUp(b)
    ensures !PosixPath.ClimbsUp(a + b)
  {
    forall i | 0 <= i < |a + b| ensures (a + b)[i] != ".." {
      if i < |a| { assert (a + b)[i] == a[i]; } else { assert (a + b)[i] == b[i - |a|]; }
    }
  }

  /**
   * When neither query value holds a ".." segment, the path looked up and
   * served lies inside "/tmp/cropped".
   */
  lemma ConfinedWithoutClimbing(sessionId: string, fileName: string)
    requires sessionId != "" && fileName != ""
    requires !PosixPath.ClimbsUp(PosixPath.Split(sessionId)) && !PosixPath.ClimbsUp(PosixPath.Split(fileName))
    ensures InsideRoot(FilePath(sessionId, fileName))
  {
    var p := Root + "/" + sessionId + "/" + fileName;
    JoinPathsThree(Root, sessionId, fileName);
    var rest := PosixPath.Split(sessionId) + PosixPath.Split(fileName);
    SplitJoined(sessionId, fileName);
    NoClimbAppend(PosixPath.Split(sessionId), PosixPath.Split(fileName));
    ResolveRoot(rest);
    PosixPath.ResolveExtends(["tmp", "cropped"], rest, true);
    var segs := PosixPath.Resolve(["tmp", "cropped"], rest, true);
    assert p[0] == '/';
    RenderInsideRoot(segs, p[|p| - 1] == '/');
  }

  /** The segments of "../../../" followed by relative plain segments. */
  lemma SplitClimb(target: seq<string>)
    requires target != [] && PosixPath.AllPlain(target)
    ensures PosixPath.Split("../../../" + PosixPath.Join(target)) == ["..", "..", ".."] + target
  {
    var t := PosixPath.Join(target);
    assert "../../../" + t == ".." + "/" + ".." + "/" + ".." + "/" + t;
    PosixPath.SplitAppend(".." + "/" + ".." + "/" + "..", t);
    PosixPath.SplitThree("..", "..", "..");
    assert PosixPath.Unseparated(target) by {
      forall i | 0 <= i < |target| ensures '/' !in target[i] {
        assert PosixPath.Plain(target[i]);
      }
    }
    PosixPath.SplitJoin(target);
  }

  /** The stack for a plain session id followed by three ".." and plain segments. */
  lemma ResolveClimb(sessionId: string, target: seq<string>)
    requires PosixPath.Plain(sessionId) && PosixPath.AllPlain(target)
    ensures PosixPath.Resolve([], ["", "tmp", "cropped"] + ([sessionId] + (["..", "..", ".."] + target)), true) == target
  {
    var rest := [sessionId] + (["..", "..", ".."] + target);
    ResolveRoot(rest);
    assert rest == [sessionId, "..", "..", ".."] + target;
    PosixPath.ResolveAppend(["tmp", "cropped"], [sessionId, "..", "..", ".."], target, true);
    assert PosixPath.Resolve(["tmp", "cropped"], [sessionId, "..", "..", ".."], true) == [] by {
      var up := ["..", "..", ".."];
      assert [sessionId, "..", "..", ".."][1..] == up && up[1..] == ["..", ".."] && ["..", ".."][1..] == [".."];
      assert PosixPath.Step(["tmp", "cropped"], sessionId, true) == ["tmp", "cropped", sessionId];
      assert PosixPath.Resolve(["tmp", "cropped"], [sessionId, "..", "..", ".."], true)
          == PosixPath.Resolve(["tmp", "cropped", sessionId], up, true);
      assert PosixPath.Resolve(["tmp", "cropped", sessionId], up, true)
          == PosixPath.Resolve(["tmp", "cropped"], ["..", ".."], true);
      assert PosixPath.Resolve(["tmp", "cropped"], ["..", ".."], true) == PosixPath.Resolve(["tmp"], [".."], true);
    }
    PosixPath.ResolvePlain([], target, true);
    assert [] + target == target;
  }

  /** Normalising an absolute path without trailing separator whose stack is not empty. */
  lemma NormalizeAbsolute(p: string, segs: seq<string>)
    requires p != [] && p[0] == '/' && p[|p| - 1] != '/'
    requires PosixPath.Resolve([], PosixPath.Split(p), true) == segs && segs != []
    ensures PosixPath.Normalize(p) == "/" + PosixPath.Join(segs)
  {
    assert "/" + PosixPath.Join(segs) + "" == "/" + PosixPath.Join(segs);
  }

  /**
   * Nothing stops a file name from climbing out of the root: three ".."
   * segments after a plain session id reach "/" and any file below it.
   */
  lemma TraversalEscapes(sessionId: string, target: seq<string>)
    requires PosixPath.Plain(sessionId)
    requires target != [] && PosixPath.AllPlain(target)
    ensures FilePath(sessionId, "../../../" + PosixPath.Join(target)) == "/" + PosixPath.Join(target)
  {
    var t := PosixPath.Join(target);
    var fileName := "../../../" + t;
    var p := Root + "/" + sessionId + "/" + fileName;
    JoinPathsThree(Root, sessionId, fileName);
    assert PosixPath.Split(p) == ["", "tmp", "cropped"] + ([sessionId] + (["..", "..", ".."] + target)) by {
      SplitJoined(sessionId, fileName);
      PosixPath.SplitUnseparated(sessionId);
      SplitClimb(target);
    }
    ResolveClimb(sessionId, target);
    assert t != [] && t[|t| - 1] != '/' by {
      assert PosixPath.Normal(target, true);
      PosixPath.JoinNormalEnds(target, true);
    }
    assert p[|p| - 1] == t[|t| - 1];
    NormalizeAbsolute(p, target);
  }

  /** A request for "../../../etc/passwd" under any session id looks up "/etc/passwd". */
  lemma PasswdReachable(sessionId: string)
    requires PosixPath.Plain(sessionId)
    ensures FilePath(sessionId, "../../../etc/passwd") == "/etc/passwd"
  {
    var target := ["etc", "passwd"];
    assert PosixPath.AllPlain(target) by {
      assert PosixPath.Plain("etc") && PosixPath.Plain("passwd");
    }
    TraversalEscapes(sessionId, target);
    assert PosixPath.Join(target) == "etc/passwd" by {
      assert target[1..] == ["passwd"];
      assert "etc" + "/" + "passwd" == "etc/passwd";
    }
    assert "../../../" + "etc/passwd" == "../../../etc/passwd";
    assert "/" + "etc/passwd" == "/etc/passwd";
  }

  /** So the handler streams "/etc/passwd" to anyone who asks for it by that name. */
  lemma PasswdServed(sessionId: string, existing: set<string>)
    requires PosixPath.Plain(sessionId) && "/etc/passwd" in existing
    ensures Handle(Query(One(sessionId), One("../../../etc/passwd")), existing)
         == Stream(ContentType, DispositionPrefix + "../../../etc/passwd", "/etc/passwd")
  {
    PasswdReachable(sessionId);
    assert HeaderSafe("../../../etc/passwd");
  }

  /**
   * Whatever the traversal reaches is served when it exists and its name is
   * a valid header value.
   */
  lemma TraversalServed(sessionId: string, target: seq<string>, existing: set<string>)
    requires PosixPath.Plain(sessionId)
    requires target != [] && PosixPath.AllPlain(target)
    requires "/" + PosixPath.Join(target) in existing
    requires HeaderSafe("../../../" + PosixPath.Join(target))
    ensures Handle(Query(One(sessionId), One("../../../" + PosixPath.Join(target))), existing)
         == Stream(ContentType, DispositionPrefix + "../../../" + PosixPath.Join(target), "/" + PosixPath.Join(target))
  {
    TraversalEscapes(sessionId, target);
  }

  /** A file the handler streams lies inside the root when neither query value holds "..". */
  lemma StreamedInsideRoot(query: Query, existing: set<string>)
    requires Handle(query, existing).Stream?
    requires query.sessionId.One? && !PosixPath.ClimbsUp(PosixPath.Split(query.sessionId.value))
    requires query.fileName.One? && !PosixPath.ClimbsUp(PosixPath.Split(query.fileName.value))
    ensures InsideRoot(Handle(query, existing).path)
  {
    ConfinedWithoutClimbing(query.sessionId.value, query.fileName.value);
  }
}
