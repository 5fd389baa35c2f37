/**
 * The e-mail check (`src/pages/api/sheets.js`): a POST with an `email`
 * answers whether that address appears, ignoring case, in column A of one
 * Google spreadsheet.
 *
 * Google's client library is replaced by what it answered: authentication
 * failed, the fetch failed, or the rows it returned.
 */
module Sheets {
  import opened Wrappers

  const SpreadsheetId := "1mYMBCU0Q-7CTF88jiSzd7UAQNQua9W2q62kG5uXvp8M"
  const SheetRange := "Sheet1!A:A"
  const AuthFailedMessage := "Google Sheets authentication failed"
  const CheckFailedMessage := "Failed to check email existence"
  const EmailRequiredMessage := "Email is required"

  // ---------------------------------------------------------------------
  // Inputs

  /** The `email` property of the request body, as far as the handler cares. */
  datatype JsonValue =
    | Undefined
    | Str(s: string)
    | Other(truthy: bool)   // a number, boolean, object, array or null

  /** JavaScript truthiness. */
  predicate Truthy(v: JsonValue)
  {
    match v
    case Undefined => false
    case Str(s) => s != ""
    case Other(t) => t
  }

  /** `req.body`: JSON `null`, or anything else (whose `email` property is read). */
  datatype Body = NullBody | Object(email: JsonValue)

  /** A row of the fetched range: its cells, possibly none. */
  type Row = seq<string>

  /** What Google answered: authentication failed, the fetch failed, or `response.data.values`. */
  datatype Sheet = AuthFails | FetchFails | Fetched(values: Option<seq<Row>>)

  // ---------------------------------------------------------------------
  // Lower case

  /** `toLowerCase` on one character (ASCII letters only). */
  function LowerChar(c: char): (d: char)
    ensures 'A' <= c <= 'Z' ==> d as int == c as int + 32
    ensures !('A' <= c <= 'Z') ==> d == c
  {
    if 'A' <= c <= 'Z' then (c as int + 32) as char else c
  }

  /** `s.toLowerCase()` */
  function Lower(s: string): (r: string)
    ensures |r| == |s|
  {
    seq(|s|, i requires 0 <= i < |s| => LowerChar(s[i]))
  }

  /** Lowering twice is lowering once. */
  lemma LowerIdempotent(s: string)
    ensures Lower(Lower(s)) == Lower(s)
  {
    forall i | 0 <= i < |s| ensures Lower(Lower(s))[i] == Lower(s)[i] {
      var c := s[i];
      assert Lower(s)[i] == LowerChar(c);
    }
  }

  // ---------------------------------------------------------------------
  // checkEmailExists

  /** `row[0].toLowerCase() === email.toLowerCase()` for a row with a first cell. */
  predicate Matches(row: Row, email: string)
  {
    row != [] && Lower(row[0]) == Lower(email)
  }

  /** How `emails.some(...)` ends. */
  datatype Scan = Found | NotFound | TypeError

  /**
   * `rows.some(row => row[0].toLowerCase() === email.toLowerCase())`,
   * row by row: a row without a first cell, or an email that is not a
   * string, throws; a match stops the walk.
   */
  function ScanRows(rows: seq<Row>, email: JsonValue): (scan: Scan)
    ensures scan == Found ==> email.Str? && exists i :: 0 <= i < |rows| && Matches(rows[i], email.s)
    ensures scan == TypeError ==> exists i :: 0 <= i < |rows| && (rows[i] == [] || !email.Str?)
  {
    if rows == [] then NotFound
    else if rows[0] == [] || !email.Str? then TypeError
    else if Lower(rows[0][0]) == Lower(email.s) then Found
    else ScanRows(rows[1..], email)
  }

  /** An email that is not a string throws at the first row, and is never looked at without one. */
  lemma ScanNonString(rows: seq<Row>, email: JsonValue)
    requires !email.Str?
    ensures ScanRows(rows, email) == if rows == [] then NotFound else TypeError
  {
  }

  /** When every row has a first cell, the walk answers whether some row matches. */
  lemma {:induction false} ScanFound(rows: seq<Row>, email: string)
    requires forall i :: 0 <= i < |rows| ==> rows[i] != []
    ensures ScanRows(rows, Str(email)) == Found <==> exists i :: 0 <= i < |rows| && Matches(rows[i], email)
    ensures ScanRows(rows, Str(email)) != TypeError
  {
    if rows != [] && !Matches(rows[0], email) {
      ScanFound(rows[1..], email);
      if exists i :: 0 <= i < |rows| && Matches(rows[i], email) {
        var i :| 0 <= i < |rows| && Matches(rows[i], email);
        assert rows[1..][i - 1] == rows[i];
      }
    }
  }

  /** The walk throws exactly when a row without a first cell comes before any match. */
  lemma {:induction false} ScanThrows(rows: seq<Row>, email: string)
    ensures ScanRows(rows, Str(email)) == TypeError <==>
      exists i :: 0 <= i < |rows| && rows[i] == [] && forall j :: 0 <= j < i ==> !Matches(rows[j], email)
  {
    if rows != [] && rows[0] != [] && !Matches(rows[0], email) {
      var rest := rows[1..];
      ScanThrows(rest, email);
      if ScanRows(rows, Str(email)) == TypeError {
        var i :| 0 <= i < |rest| && rest[i] == [] && forall j :: 0 <= j < i ==> !Matches(rest[j], email);
        assert rows[i + 1] == [];
        forall j | 0 <= j < i + 1 ensures !Matches(rows[j], email) {
          if j > 0 { assert rows[j] == rest[j - 1]; }
        }
      }
      if exists i :: 0 <= i < |rows| && rows[i] == [] && forall j :: 0 <= j < i ==> !Matches(rows[j], email) {
        var i :| 0 <= i < |rows| && rows[i] == [] && forall j :: 0 <= j < i ==> !Matches(rows[j], email);
        assert rest[i - 1] == [];
        forall j | 0 <= j < i - 1 ensures !Matches(rest[j], email) {
          assert rest[j] == rows[j + 1];
        }
      }
    }
  }

  /** Whether the email is in the sheet depends only on its lower-case form. */
  lemma {:induction false} ScanIgnoresCase(rows: seq<Row>, email: string)
    ensures ScanRows(rows, Str(email)) == ScanRows(rows, Str(Lower(email)))
  {
    LowerIdempotent(email);
    ScanSameLower(rows, email, Lower(email));
  }

  /** Two emails with the same lower-case form fare the same. */
  lemma {:induction false} ScanSameLower(rows: seq<Row>, e1: string, e2: string)
    requires Lower(e1) == Lower(e2)
    ensures ScanRows(rows, Str(e1)) == ScanRows(rows, Str(e2))
  {
    if rows != [] && rows[0] != [] && Lower(rows[0][0]) != Lower(e1) {
      ScanSameLower(rows[1..], e1, e2);
    }
  }

  /** What an async function settled with: a value, or an `Error` with its message. */
  datatype Outcome<T> = Resolved(value: T) | Rejected(message: string)

  /** `authenticate()`: a client, or the error it rethrows. */
  function Authenticate(sheet: Sheet): (r: Outcome<()>)
    ensures r.Rejected? <==> sheet.AuthFails?
    ensures r.Rejected? ==> r.message == AuthFailedMessage
  {
    if sheet.AuthFails? then Rejected(AuthFailedMessage) else Resolved(())
  }

  /** `checkEmailExists(email)`: every failure, its own included, becomes one message. */
  function CheckEmailExists(email: JsonValue, sheet: Sheet): (r: Outcome<bool>)
    ensures sheet.AuthFails? || sheet.FetchFails? ==> r == Rejected(CheckFailedMessage)
    ensures sheet == Fetched(None) ==> r == Resolved(false)
    ensures sheet.Fetched? ==>
      var rows := sheet.values.GetOr([]);
      && (r == Resolved(true) <==> ScanRows(rows, email) == Found)
      && (r == Resolved(false) <==> ScanRows(rows, email) == NotFound)
      && (r == Rejected(CheckFailedMessage) <==> ScanRows(rows, email) == TypeError)
    ensures r.Rejected? ==> r.message == CheckFailedMessage
  {
    match Authenticate(sheet)
    case Rejected(_) => Rejected(CheckFailedMessage)
    case Resolved(_) =>
      match sheet
      case FetchFails => Rejected(CheckFailedMessage)
      case Fetched(values) =>
        var emails := values.GetOr([]);
        match ScanRows(emails, email)
        case Found => Resolved(true)
        case NotFound => Resolved(false)
        case TypeError => Rejected(CheckFailedMessage)
  }

  // ---------------------------------------------------------------------
  // handler

  /** The JSON body of a reply. */
  datatype Payload =
    | Exists(found: bool)
    | Error(error: string)
    | EngineError   // `{ error: e.message }` for a TypeError the JavaScript engine raised

  /** A JSON reply, or the 405 answer: an `Allow` header and a plain-text body. */
  datatype Response = Json(status: int, payload: Payload) | NotAllowed(allow: seq<string>, text: string)

  /** `handler(req, res)` for a request with method `verb` and body `body`. */
  function Handle(verb: string, body: Body, sheet: Sheet): (r: Response)
    ensures r == NotAllowed(["POST"], "Method " + verb + " Not Allowed") <==> verb != "POST"
    ensures r == Json(500, EngineError) <==> verb == "POST" && body.NullBody?
    ensures r == Json(400, Error(EmailRequiredMessage)) <==> verb == "POST" && body.Object? && !Truthy(body.email)
    ensures r.Json? && r.status == 200 <==>
      verb == "POST" && body.Object? && Truthy(body.email) && CheckEmailExists(body.email, sheet).Resolved?
    ensures r.Json? && r.status == 200 ==> r.payload == Exists(CheckEmailExists(body.email, sheet).value)
    ensures r == Json(500, Error(CheckFailedMessage)) <==>
      verb == "POST" && body.Object? && Truthy(body.email) && CheckEmailExists(body.email, sheet).Rejected?
  {
    if verb != "POST" then NotAllowed(["POST"], "Method " + verb + " Not Allowed")
    // destructuring `null` throws
    else if body.NullBody? then Json(500, EngineError)
    else if !Truthy(body.email) then Json(400, Error(EmailRequiredMessage))
    else
      match CheckEmailExists(body.email, sheet)
      case Resolved(found) => Json(200, Exists(found))
      case Rejected(message) => Json(500, Error(message))
  }

  /** The walk finds a matching row when every row before it has a first cell, whatever follows it. */
  lemma {:induction false} ScanReachesMatch(rows: seq<Row>, email: string, i: nat)
    requires i < |rows| && Matches(rows[i], email)
    requires forall j :: 0 <= j < i ==> rows[j] != []
    ensures ScanRows(rows, Str(email)) == Found
  {
    if i > 0 && !Matches(rows[0], email) {
      ScanReachesMatch(rows[1..], email, i - 1);
    }
  }

  /**
   * A listed address is found whatever its case, provided no row without a
   * first cell comes before it.
   */
  lemma ListedEmailFound(rows: seq<Row>, email: string, i: nat)
    requires email != ""
    requires i < |rows| && rows[i] != [] && Lower(rows[i][0]) == Lower(email)
    requires forall j :: 0 <= j < i ==> rows[j] != []
    ensures Handle("POST", Object(Str(email)), Fetched(Some(rows))) == Json(200, Exists(true))
  {
    ScanReachesMatch(rows, email, i);
  }

  /** Authentication failing is reported as a failed check, never with its own message. */
  lemma AuthFailureHidden(email: JsonValue)
    requires Truthy(email)
    ensures Handle("POST", Object(email), AuthFails) == Json(500, Error(CheckFailedMessage))
  {
  }

  /** A missing email is refused before Google is asked, so the answer does not depend on the sheet. */
  lemma MissingEmailIgnoresSheet(verb: string, email: JsonValue, s1: Sheet, s2: Sheet)
    requires !Truthy(email)
    ensures Handle(verb, Object(email), s1) == Handle(verb, Object(email), s2)
  {
  }
}
