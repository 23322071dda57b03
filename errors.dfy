/**
 * The error middleware: the mapping from a thrown error to the HTTP status
 * and message of the JSON reply, the folding of validation errors into a
 * field-to-message dictionary, the log-line format and the application's
 * own error class.
 */
module Errors {
  import opened Wrappers
  import opened Text

  /**
   * What the middleware reads from a thrown error. An absent or empty
   * `message` is "" (both are falsy), `code` is the driver's numeric error
   * code when there is one, `statusCode` an own property copied by the
   * spread (set by `AppError`), and `fieldMessages` the messages of a
   * validation error's `errors` object in key order.
   */
  datatype Thrown = Thrown(
    name: string,
    code: Option<int>,
    message: string,
    statusCode: Option<int>,
    fieldMessages: seq<string>,
    stack: string)

  /** The status and JSON body sent back; `stack` is present only in development mode. */
  datatype ErrorResponse = ErrorResponse(status: int, success: bool, message: string, stack: Option<string>)

  /** One `error = { message, statusCode }` rewrite. */
  datatype Rewrite = Rewrite(status: int, message: string)

  /**
   * The rewrites whose condition holds for `err`, in the order the
   * middleware tests them: bad object id, duplicate key, validation
   * failure, invalid token, expired token.
   */
  function Rewrites(err: Thrown): (r: seq<Rewrite>)
    ensures |r| <= 5
  {
    (if err.name == "CastError" then [Rewrite(404, "Resource not found")] else [])
    + (if err.code == Some(11000) then [Rewrite(400, "Duplicate field value entered")] else [])
    + (if err.name == "ValidationError" then [Rewrite(400, Join(err.fieldMessages, ", "))] else [])
    + (if err.name == "JsonWebTokenError" then [Rewrite(401, "Invalid token")] else [])
    + (if err.name == "TokenExpiredError" then [Rewrite(401, "Token expired")] else [])
  }

  /** The record the reply is built from: the last rewrite that applies, or the error's own fields. */
  function Effective(err: Thrown): Rewrite {
    var rs := Rewrites(err);
    if rs == [] then Rewrite(if err.statusCode.Some? then err.statusCode.value else 0, err.message)
    else rs[|rs| - 1]
  }

  /** `error.statusCode || 500`. */
  function StatusOf(err: Thrown): int {
    var s := Effective(err).status;
    if s != 0 then s else 500
  }

  /** `error.message || 'Server Error'`. */
  function MessageOf(err: Thrown): string {
    var m := Effective(err).message;
    if m != "" then m else "Server Error"
  }

  /**
   * `errorHandler`: start from a copy of the error, overwrite it with each
   * rewrite whose condition holds, then reply with its status (500 when it
   * has none) and message ("Server Error" when empty). The reply always
   * says `success: false` and carries the stack only in development.
   */
  method ErrorHandler(err: Thrown, development: bool) returns (r: ErrorResponse)
    ensures r.status == StatusOf(err) && r.message == MessageOf(err)
    ensures !r.success
    ensures r.stack.Some? <==> development
    ensures development ==> r.stack == Some(err.stack)
  {
    var statusCode := if err.statusCode.Some? then err.statusCode.value else 0;
    var message := err.message;
    if err.name == "CastError" {
      message, statusCode := "Resource not found", 404;
    }
    if err.code == Some(11000) {
      message, statusCode := "Duplicate field value entered", 400;
    }
    if err.name == "ValidationError" {
      message, statusCode := Join(err.fieldMessages, ", "), 400;
    }
    if err.name == "JsonWebTokenError" {
      message, statusCode := "Invalid token", 401;
    }
    if err.name == "TokenExpiredError" {
      message, statusCode := "Token expired", 401;
    }
    r := ErrorResponse(if statusCode != 0 then statusCode else 500, false,
                       if message != "" then message else "Server Error",
                       if development then Some(err.stack) else None);
  }

  /** A bad object id is a 404, unless it also carries the duplicate-key code. */
  lemma CastErrorIsNotFound(err: Thrown)
    requires err.name == "CastError"
    ensures err.code != Some(11000) ==> StatusOf(err) == 404 && MessageOf(err) == "Resource not found"
    ensures err.code == Some(11000) ==> StatusOf(err) == 400 && MessageOf(err) == "Duplicate field value entered"
  {
  }

  /**
   * The duplicate-key code gives 400 "Duplicate field value entered"
   * unless a later test (validation or token error) matches the name.
   */
  lemma DuplicateKeyIsBadRequest(err: Thrown)
    requires err.code == Some(11000)
    requires err.name != "ValidationError" && err.name != "JsonWebTokenError" && err.name != "TokenExpiredError"
    ensures StatusOf(err) == 400 && MessageOf(err) == "Duplicate field value entered"
  {
  }

  /**
   * A validation error is a 400 whose message joins the field messages
   * with ", "; with no field messages, or only one empty one, the message
   * falls back to "Server Error".
   */
  lemma ValidationIsBadRequest(err: Thrown)
    requires err.name == "ValidationError"
    ensures StatusOf(err) == 400
    ensures MessageOf(err) == "Server Error" <==>
              |err.fieldMessages| == 0 || (|err.fieldMessages| == 1 && err.fieldMessages[0] in {"", "Server Error"})
    ensures |err.fieldMessages| >= 1 && err.fieldMessages[0] != "" ==>
              MessageOf(err) == Join(err.fieldMessages, ", ")
  {
    JoinEmpty(err.fieldMessages, ", ");
    var m := err.fieldMessages;
    if |m| > 1 {
      assert Join(m, ", ") == m[0] + ", " + Join(m[1..], ", ");
      assert |Join(m, ", ")| >= 2 && Join(m, ", ")[|m[0]|] == ',';
      var fallback := "Server Error";
      assert forall i :: 0 <= i < |fallback| ==> fallback[i] != ',';
    }
  }

  /** Both token errors are 401s. */
  lemma TokenErrorsAreUnauthorised(err: Thrown)
    requires err.name == "JsonWebTokenError" || err.name == "TokenExpiredError"
    ensures StatusOf(err) == 401
    ensures MessageOf(err) == (if err.name == "JsonWebTokenError" then "Invalid token" else "Token expired")
  {
  }

  /**
   * An error no test recognises keeps its own status (500 when it has
   * none or it is 0) and its own message ("Server Error" when empty).
   */
  lemma UnrecognisedKeepsOwnFields(err: Thrown)
    requires err.name !in {"CastError", "ValidationError", "JsonWebTokenError", "TokenExpiredError"}
    requires err.code != Some(11000)
    ensures StatusOf(err) == (if err.statusCode.Some? && err.statusCode.value != 0 then err.statusCode.value else 500)
    ensures MessageOf(err) == (if err.message != "" then err.message else "Server Error")
  {
  }

  /** The status is always one of the mapped codes or the error's own non-zero status. */
  lemma StatusRange(err: Thrown)
    ensures StatusOf(err) in {400, 401, 404, 500} || (err.statusCode.Some? && StatusOf(err) == err.statusCode.value != 0)
  {
  }

  /**
   * `AppError`: an `Error` whose message and status code are the ones
   * given and which is marked operational.
   */
  class AppError {
    const name: string
    var message: string
    var statusCode: Option<int>
    var isOperational: bool
    var stack: string

    constructor (message: string, statusCode: Option<int>, stack: string)
      ensures this.name == "Error" && this.message == message && this.statusCode == statusCode
      ensures this.isOperational && this.stack == stack
    {
      this.name := "Error";
      this.message := message;
      this.statusCode := statusCode;
      this.isOperational := true;
      this.stack := stack;
    }

    /** The error as the middleware sees it. */
    function AsThrown(): (t: Thrown)
      reads this
      ensures t.name == name && t.message == message && t.statusCode == statusCode && t.code.None?
    {
      Thrown(name, None, message, statusCode, [], stack)
    }
  }

  /**
   * An application error reaches the client with the status and message it
   * was raised with (500 and "Server Error" standing in for missing ones).
   */
  lemma AppErrorReply(message: string, statusCode: Option<int>, stack: string)
    ensures var t := Thrown("Error", None, message, statusCode, [], stack);
            && StatusOf(t) == (if statusCode.Some? && statusCode.value != 0 then statusCode.value else 500)
            && MessageOf(t) == (if message != "" then message else "Server Error")
  {
  }

  /** One element of an error array; a falsy `path` is "". */
  datatype FieldError = FieldError(path: string, message: string)

  /** A value of an error object: an object with a `message`, or a bare value (read as text). */
  datatype ErrorValue = Described(message: string) | Bare(text: string)

  /** What `validationErrorHandler` stores for a key. */
  datatype Formatted = Text(text: string) | Whole(value: ErrorValue)

  /** The two input shapes the handler folds, and anything else (folded to an empty dictionary). */
  datatype ErrorsInput = ArrayOf(items: seq<FieldError>) | ObjectOf(entries: map<string, ErrorValue>) | Scalar

  /** `errors[key].message || errors[key]`. */
  function Shown(v: ErrorValue): (r: Formatted)
    ensures r.Text? <==> !(v.Described? && v.message == "")
  {
    match v
    case Described(m) => if m != "" then Text(m) else Whole(v)
    case Bare(t) => Text(t)
  }

  /** The message of the last element of `items` whose path is `p`. */
  function LastWith(items: seq<FieldError>, p: string): Option<string>
  {
    if |items| == 0 then None
    else if items[|items| - 1].path == p then Some(items[|items| - 1].message)
    else LastWith(items[..|items| - 1], p)
  }

  /** `LastWith` finds a message exactly when some element has the path, and it is the last such one. */
  lemma {:induction false} LastWithMeaning(items: seq<FieldError>, p: string)
    ensures LastWith(items, p).Some? <==> exists i :: 0 <= i < |items| && items[i].path == p
    ensures LastWith(items, p).Some? ==>
              exists i :: 0 <= i < |items| && items[i].path == p && LastWith(items, p).value == items[i].message &&
                          forall j :: i < j < |items| ==> items[j].path != p
    decreases |items|
  {
    if |items| > 0 {
      var n := |items| - 1;
      var front := items[..n];
      LastWithMeaning(front, p);
      if items[n].path != p {
        if exists i :: 0 <= i < |items| && items[i].path == p {
          var i :| 0 <= i < |items| && items[i].path == p;
          assert front[i].path == p;
        }
        if LastWith(items, p).Some? {
          var i :| 0 <= i < |front| && front[i].path == p && LastWith(front, p).value == front[i].message &&
                   forall j :: i < j < |front| ==> front[j].path != p;
          assert items[i] == front[i];
          assert forall j :: i < j < |items| ==> items[j].path != p by {
            forall j | i < j < |items| ensures items[j].path != p {
              if j < n { assert items[j] == front[j]; }
            }
          }
        }
      }
    }
  }

  /**
   * `validationErrorHandler`. An array keeps, for each non-empty path, the
   * message of the last element with that path; an object maps each key
   * to its value's message or, failing that, the value itself; anything
   * else gives an empty dictionary.
   */
  method ValidationErrorHandler(errors: ErrorsInput) returns (formatted: map<string, Formatted>)
    ensures errors.ArrayOf? ==>
              (forall p :: p in formatted <==> p != "" && LastWith(errors.items, p).Some?) &&
              (forall p :: p in formatted ==> formatted[p] == Text(LastWith(errors.items, p).value))
    ensures errors.ObjectOf? ==>
              formatted.Keys == errors.entries.Keys &&
              (forall k :: k in formatted ==> formatted[k] == Shown(errors.entries[k]))
    ensures errors.Scalar? ==> formatted == map[]
  {
    formatted := map[];
    match errors
    case ArrayOf(items) =>
      for i := 0 to |items|
        invariant forall p :: p in formatted <==> p != "" && LastWith(items[..i], p).Some?
        invariant forall p :: p in formatted ==> formatted[p] == Text(LastWith(items[..i], p).value)
      {
        assert items[..i + 1][..i] == items[..i];
        if items[i].path != "" {
          formatted := formatted[items[i].path := Text(items[i].message)];
        }
      }
      assert items[..|items|] == items;
    case ObjectOf(entries) =>
      var rest := entries.Keys;
      while rest != {}
        invariant rest <= entries.Keys
        invariant formatted.Keys == entries.Keys - rest
        invariant forall k :: k in formatted ==> formatted[k] == Shown(entries[k])
        decreases |rest|
      {
        var key :| key in rest;
        formatted := formatted[key := Shown(entries[key])];
        rest := rest - {key};
      }
    case Scalar =>
  }

  /** An array whose paths are distinct keeps every element that has a path. */
  lemma DistinctPathsAllKept(items: seq<FieldError>, i: nat)
    requires i < |items| && items[i].path != ""
    requires forall a, b :: 0 <= a < b < |items| ==> items[a].path != items[b].path
    ensures LastWith(items, items[i].path) == Some(items[i].message)
  {
    LastWithMeaning(items, items[i].path);
  }

  /** The four log levels. */
  datatype LogLevel = Error | Warn | Info | Debug {
    function Name(): (r: string)
      ensures this.Error? <==> r == "ERROR"
      ensures this.Warn? <==> r == "WARN"
      ensures this.Info? <==> r == "INFO"
      ensures this.Debug? <==> r == "DEBUG"
    {
      match this
      case Error => "ERROR"
      case Warn => "WARN"
      case Info => "INFO"
      case Debug => "DEBUG"
    }
  }

  /**
   * `Logger.formatMessage`: `[timestamp] LEVEL: message`, followed by
   * ` | ` and the serialised metadata when the metadata has at least one
   * key. The clock reading and the JSON serialisation are parameters.
   */
  function FormatMessage(timestamp: string, level: LogLevel, message: string, metaKeys: nat, metaJson: string): (line: string)
  {
    "[" + timestamp + "] " + level.Name() + ": " + message + (if metaKeys > 0 then " | " + metaJson else "")
  }

  /**
   * The line opens with the bracketed timestamp and the level; the message
   * follows the `": "` after the level; the line ends with the message
   * exactly when there is no metadata, and otherwise with the metadata.
   */
  lemma FormatMessageLayout(timestamp: string, level: LogLevel, message: string, metaKeys: nat, metaJson: string)
    ensures var line := FormatMessage(timestamp, level, message, metaKeys, metaJson);
            var head := "[" + timestamp + "] " + level.Name() + ": ";
            && line[..|head|] == head
            && (metaKeys == 0 ==> line[|head|..] == message)
            && (metaKeys > 0 ==> line[|head|..] == message + " | " + metaJson)
            && |line| == |head| + |message| + (if metaKeys > 0 then 3 + |metaJson| else 0)
  {
    var line := FormatMessage(timestamp, level, message, metaKeys, metaJson);
    var head := "[" + timestamp + "] " + level.Name() + ": ";
    var tail := message + (if metaKeys > 0 then " | " + metaJson else "");
    assert line == head + tail;
  }
}
