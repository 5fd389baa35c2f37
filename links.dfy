/**
 * How the link the upload handler returns reaches the download handler:
 * the query string of a URL becomes `req.query`, and the download handler
 * reads `sessionId` and `fileName` from it.
 */
module Links {
  import Text
  import Upload
  import Download

  /** The text before the first `c` in `s`, or all of `s` when there is none. */
  function Before(s: string, c: char): (r: string)
    ensures |r| <= |s| && r == s[..|r|] && c !in r
  {
    if s == [] || s[0] == c then "" else [s[0]] + Before(s[1..], c)
  }

  /** The text after the first `c` in `s`, or "" when there is none. */
  function After(s: string, c: char): (r: string)
    ensures |r| <= |s|
  {
    if s == [] then "" else if s[0] == c then s[1..] else After(s[1..], c)
  }

  /** `s` is what comes before its first `c`, then `c`, then what comes after. */
  lemma {:induction false} BeforeAfter(s: string, c: char)
    requires c in s
    ensures s == Before(s, c) + [c] + After(s, c)
  {
    if s[0] != c {
      BeforeAfter(s[1..], c);
      assert s == [s[0]] + s[1..];
    }
  }

  /**
   * The key-value pairs of a query string: the non-empty pieces between
   * '&', each cut at its first '=' (a piece without '=' has the value "").
   */
  function Pairs(query: string): (pairs: seq<(string, string)>)
    ensures forall i :: 0 <= i < |pairs| ==> '&' !in pairs[i].0 && '=' !in pairs[i].0
  {
    var pieces := Text.Filled(Text.Pieces(query, '&'));
    seq(|pieces|, i requires 0 <= i < |pieces| => (Before(pieces[i], '='), After(pieces[i], '=')))
  }

  /** The values given for `key`, in order. */
  function ValuesOf(pairs: seq<(string, string)>, key: string): (values: seq<string>)
    ensures |values| <= |pairs|
  {
    if pairs == [] then []
    else (if pairs[0].0 == key then [pairs[0].1] else []) + ValuesOf(pairs[1..], key)
  }

  /** A value is given for `key` exactly when some pair has that key. */
  lemma {:induction false} ValuesOfMembers(pairs: seq<(string, string)>, key: string, value: string)
    ensures value in ValuesOf(pairs, key) <==> (key, value) in pairs
  {
    if pairs != [] {
      ValuesOfMembers(pairs[1..], key, value);
      assert pairs == [pairs[0]] + pairs[1..];
    }
  }

  /** `req.query[key]`: nothing, the one value, or every value when the key repeats. */
  function Lookup(pairs: seq<(string, string)>, key: string): (param: Download.Param)
    ensures param.One? ==> (key, param.value) in pairs
    ensures param.Many? ==> |param.values| >= 2 && forall v :: v in param.values ==> (key, v) in pairs
  {
    var values := ValuesOf(pairs, key);
    assert forall v :: v in values ==> (key, v) in pairs by {
      forall v | v in values {
        ValuesOfMembers(pairs, key, v);
      }
    }
    if values == [] then Download.Absent
    else if |values| == 1 then Download.One(values[0])
    else Download.Many(values)
  }

  /** A key is absent from the query exactly when no pair names it. */
  lemma LookupAbsent(pairs: seq<(string, string)>, key: string)
    ensures Lookup(pairs, key).Absent? <==> forall i :: 0 <= i < |pairs| ==> pairs[i].0 != key
  {
    var values := ValuesOf(pairs, key);
    if values != [] {
      ValuesOfMembers(pairs, key, values[0]);
      var i :| 0 <= i < |pairs| && pairs[i] == (key, values[0]);
    } else {
      forall i | 0 <= i < |pairs| ensures pairs[i].0 != key {
        ValuesOfMembers(pairs, key, pairs[i].1);
      }
    }
  }

  /** The two entries of `req.query` the download handler reads, for the URL `url`. */
  function QueryOf(url: string): (query: Download.Query)
  {
    var pairs := Pairs(After(url, '?'));
    Download.Query(Lookup(pairs, "sessionId"), Lookup(pairs, "fileName"))
  }

  /** Cutting at the first `c` when the text before it holds none. */
  lemma {:induction false} CutAtFirst(a: string, c: char, b: string)
    requires c !in a
    ensures Before(a + [c] + b, c) == a
    ensures After(a + [c] + b, c) == b
  {
    if a != [] {
      CutAtFirst(a[1..], c, b);
      assert (a + [c] + b)[1..] == a[1..] + [c] + b;
    }
  }

  /** A query string holding one pair. */
  lemma PairsOfOne(key: string, value: string)
    requires key != "" && '&' !in key && '=' !in key && '&' !in value
    ensures Pairs(key + ['='] + value) == [(key, value)]
  {
    var q := key + ['='] + value;
    assert '&' !in q by {
      forall i | 0 <= i < |q| ensures q[i] != '&' {
        if i < |key| { assert q[i] == key[i]; }
        else if i > |key| { assert q[i] == value[i - |key| - 1]; }
      }
    }
    Text.OnePiece(q, '&');
    assert Text.Filled([q]) == [q] by {
      assert [q][1..] == [];
    }
    CutAtFirst(key, '=', value);
  }

  /**
   * A URL whose query string is a single pair for some other key gives
   * the download handler neither a session id nor a file name.
   */
  lemma OtherKeyOnly(route: string, key: string, value: string)
    requires '?' !in route
    requires key != "" && '&' !in key && '=' !in key && '&' !in value
    requires key != "sessionId" && key != "fileName"
    ensures QueryOf(route + ['?'] + key + ['='] + value) == Download.Query(Download.Absent, Download.Absent)
  {
    var url := route + ['?'] + key + ['='] + value;
    assert url == route + ['?'] + (key + ['='] + value);
    CutAtFirst(route, '?', key + ['='] + value);
    PairsOfOne(key, value);
    LookupAbsent([(key, value)], "sessionId");
    LookupAbsent([(key, value)], "fileName");
  }

  /**
   * The link the upload handler returns names neither a session id nor a
   * file name, so the download handler always refuses it with 400,
   * whatever files exist.
   */
  lemma UploadLinkRefused(existing: set<string>)
    ensures Download.Handle(QueryOf(Upload.DownloadLink), existing)
         == Download.Json(400, Download.MissingMessage)
  {
    LinkSpelled();
    OtherKeyOnly("/api/download", "file", "cropped-images.zip");
  }

  /** The download link cut into its route, its one key and its value. */
  lemma LinkSpelled()
    ensures Upload.DownloadLink == "/api/download" + ['?'] + "file" + ['='] + "cropped-images.zip"
  {
  }
}
