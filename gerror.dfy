/** The wrapped-error chain: every level carries its own text, an optional
    error code and the error it wraps, which is either another level of the
    chain or an error from elsewhere. */
module GError {

  /** `None` is Go's nil. */
  datatype Option<T> = None | Some(value: T)

  /** An error code; `message` is what its `Message()` returns. No operation
      of the model reads `code`: it only tells apart codes that share a
      message. */
  datatype ErrorCode = ErrorCode(code: int, message: string)

  /** One level of the chain (what a non-nil `*Error` points to). `error` is
      the wrapped error, `None` when nothing is wrapped; `stack` holds the
      recorded program counters, which the model only copies. */
  datatype Error = Error(error: Option<GoError>, stack: seq<nat>, text: string, code: Option<ErrorCode>)

  /** A non-nil value of Go's `error` interface. `Internal(None)` is an
      interface holding a nil `*Error`, which Go does not treat as nil. A
      `Foreign` error has the message its `Error()` returns and, when it
      implements `Cause()`, the error that call returns. */
  datatype GoError = Internal(ptr: Option<Error>) | Foreign(message: string, causer: Causer)

  datatype Causer = NoCause | HasCause(cause: Option<GoError>)

  /** The message a level contributes by itself: its text, or the code's
      message when the text is empty and a code is set. */
  function OwnText(e: Error): string
  {
    if e.text == "" && e.code.Some? then e.code.value.message else e.text
  }

  /** `(*Error).Error()`: the level's own message, then, when something is
      wrapped, the wrapped error's message, with ": " between the two only
      when the own message is not empty. */
  function ErrorString(err: Option<Error>): (r: string)
    ensures err.None? ==> r == ""
    ensures err.Some? ==> OwnText(err.value) <= r
    ensures err.Some? && err.value.error.None? ==> r == OwnText(err.value)
    decreases err
  {
    match err
    case None => ""
    case Some(e) =>
      var own := OwnText(e);
      match e.error
      case None => own
      case Some(g) => (if own == "" then own else own + ": ") + GoErrorString(g)
  }

  /** `Error()` called through the `error` interface. */
  function GoErrorString(g: GoError): string
    decreases g
  {
    match g
    case Internal(p) => ErrorString(p)
    case Foreign(m, _) => m
  }

  /** The messages of the chain, outermost first: the own message of every
      level, then the message at the bottom (that of a foreign error, or
      "" for a nil `*Error`). */
  function Levels(err: Option<Error>): (r: seq<string>)
    ensures |r| >= 1
    decreases err
  {
    match err
    case None => [""]
    case Some(e) =>
      match e.error
      case None => [OwnText(e)]
      case Some(g) => [OwnText(e)] + GoLevels(g)
  }

  function GoLevels(g: GoError): (r: seq<string>)
    ensures |r| >= 1
    decreases g
  {
    match g
    case Internal(p) => Levels(p)
    case Foreign(m, _) => [m]
  }

  /** The messages that show: empty ones are dropped, except the last. */
  function Shown(parts: seq<string>): (r: seq<string>)
    requires |parts| >= 1
    ensures |r| >= 1 && r[|r| - 1] == parts[|parts| - 1]
    ensures forall i :: 0 <= i < |r| - 1 ==> r[i] != ""
  {
    if |parts| == 1 then parts
    else (if parts[0] == "" then [] else [parts[0]]) + Shown(parts[1..])
  }

  /** The strings of `parts` in order, with `sep` between neighbours. */
  function Join(parts: seq<string>, sep: string): string
  {
    if |parts| == 0 then ""
    else if |parts| == 1 then parts[0]
    else parts[0] + sep + Join(parts[1..], sep)
  }

  lemma JoinCons(x: string, rest: seq<string>, sep: string)
    requires |rest| >= 1
    ensures Join([x] + rest, sep) == x + sep + Join(rest, sep)
  {
    assert ([x] + rest)[1..] == rest;
  }

  /** The message of a chain is the ": "-join of the messages of its levels,
      leaving out every empty one except the innermost. */
  lemma {:induction false} ErrorStringJoinsLevels(err: Option<Error>)
    ensures ErrorString(err) == Join(Shown(Levels(err)), ": ")
    decreases err
  {
    match err
    case None =>
    case Some(e) =>
      match e.error
      case None =>
      case Some(g) =>
        var own, rest := OwnText(e), GoLevels(g);
        GoErrorStringJoinsLevels(g);
        assert Levels(err) == [own] + rest;
        assert ([own] + rest)[1..] == rest;
        if own != "" {
          assert Shown([own] + rest) == [own] + Shown(rest);
          JoinCons(own, Shown(rest), ": ");
        } else {
          assert Shown([own] + rest) == Shown(rest);
        }
  }

  lemma {:induction false} GoErrorStringJoinsLevels(g: GoError)
    ensures GoErrorString(g) == Join(Shown(GoLevels(g)), ": ")
    decreases g
  {
    match g
    case Internal(p) => ErrorStringJoinsLevels(p);
    case Foreign(_, _) =>
  }

  /** `m` is a suffix of `s`. */
  predicate EndsWith(s: string, m: string)
  {
    |m| <= |s| && s[|s| - |m|..] == m
  }

  /** The root cause `Cause()` finds: follow the wrapped `*Error` levels; at
      the first wrapped error that is not an `*Error`, return what its own
      `Cause()` returns if it has one, else that error; at a level that
      wraps nothing, a new plain error carrying the level's text; at a nil
      `*Error`, nil. */
  function RootCause(err: Option<Error>): Option<GoError>
    decreases err
  {
    match err
    case None => None
    case Some(e) =>
      match e.error
      case None => Some(Foreign(e.text, NoCause))
      case Some(Internal(p)) => RootCause(p)
      case Some(Foreign(_, HasCause(c))) => c
      case Some(Foreign(_, NoCause)) => e.error
  }

  /** `Cause()`: the loop that walks the chain, one level at a time. */
  method Cause(err: Option<Error>) returns (r: Option<GoError>)
    ensures r == RootCause(err)
  {
    if err.None? {
      return None;
    }
    var loop := err;
    while loop.Some?
      invariant RootCause(loop) == RootCause(err)
      decreases loop
    {
      var e := loop.value;
      if e.error.Some? {
        match e.error.value
        case Internal(p) =>
          loop := p;
        case Foreign(_, causer) =>
          if causer.HasCause? {
            return causer.cause;
          }
          return e.error;
      } else {
        return Some(Foreign(e.text, NoCause));
      }
    }
    return None;
  }

  /** No level of the chain wraps a foreign error that has a `Cause()`. */
  predicate NoCauser(err: Option<Error>)
    decreases err
  {
    match err
    case None => true
    case Some(e) =>
      match e.error
      case None => true
      case Some(Internal(p)) => NoCauser(p)
      case Some(Foreign(_, causer)) => causer.NoCause?
  }

  /** Without foreign `Cause()` methods, the root cause is nil or a plain
      foreign error, never a level of the chain, and its message is the
      tail of the whole chain's message. */
  lemma {:induction false} RootCauseEndsMessage(err: Option<Error>)
    requires NoCauser(err)
    ensures RootCause(err).None? ||
            (RootCause(err).value.Foreign? && RootCause(err).value.causer.NoCause? &&
             EndsWith(ErrorString(err), GoErrorString(RootCause(err).value)))
    decreases err
  {
    match err
    case None =>
    case Some(e) =>
      match e.error
      case None =>
      case Some(Internal(p)) =>
        RootCauseEndsMessage(p);
        if RootCause(p).Some? {
          var m := GoErrorString(RootCause(p).value);
          var inner := ErrorString(p);
          var own := OwnText(e);
          var sep := if own == "" then own else own + ": ";
          assert ErrorString(err) == sep + inner;
          assert (sep + inner)[|sep|..] == inner;
        }
      case Some(Foreign(_, _)) =>
  }

  /** `Current()`: nil for a nil receiver, otherwise a new level with the
      same stack, text and code and nothing wrapped. */
  function Current(err: Option<Error>): (r: Option<GoError>)
    ensures err.None? <==> r.None?
    ensures err.Some? ==> r.value.Internal? && r.value.ptr.Some? &&
                          r.value.ptr.value.error.None? &&
                          r.value.ptr.value.(error := err.value.error) == err.value
  {
    match err
    case None => None
    case Some(e) => Some(Internal(Some(Error(None, e.stack, e.text, e.code))))
  }

  /** `Next()`: the wrapped error, nil for a nil receiver. */
  function Next(err: Option<Error>): (r: Option<GoError>)
    ensures err.None? ==> r.None?
  {
    match err
    case None => None
    case Some(e) => e.error
  }

  /** Splitting a level with `Current()` and `Next()` loses nothing: putting
      the next error back into the current level gives the level back. */
  lemma CurrentNextRebuild(e: Error)
    ensures Current(Some(e)).value.ptr.value.(error := Next(Some(e))) == e
  {
  }

  /** The current level alone shows its own message; the whole chain's
      message starts with it and, when something is wrapped, ends with the
      next error's message. */
  lemma CurrentAndNextMessages(e: Error)
    ensures GoErrorString(Current(Some(e)).value) == OwnText(e)
    ensures var whole := ErrorString(Some(e));
            OwnText(e) <= whole &&
            (Next(Some(e)).Some? ==> EndsWith(whole, GoErrorString(Next(Some(e)).value)))
  {
    var own, whole := OwnText(e), ErrorString(Some(e));
    if e.error.Some? {
      var m := GoErrorString(e.error.value);
      var sep := if own == "" then own else own + ": ";
      assert whole == sep + m;
      assert (sep + m)[|sep|..] == m;
    }
  }

  /** `MarshalJSON` (on a value receiver): the message between double
      quotes, with no escaping, and never an error. */
  function MarshalJSON(e: Error): (r: (string, Option<GoError>))
    ensures r.1.None?
    ensures |r.0| == |ErrorString(Some(e))| + 2
    ensures r.0[0] == '"' && r.0[|r.0| - 1] == '"'
    ensures r.0[1..|r.0| - 1] == ErrorString(Some(e))
  {
    (['"'] + ErrorString(Some(e)) + ['"'], None)
  }

  /** A level as a heap object, so that `SetCode` can update it in place. */
  class ErrorNode {
    var error: Option<GoError>
    var stack: seq<nat>
    var text: string
    var code: Option<ErrorCode>

    constructor (e: Error)
      ensures Value() == e
    {
      error, stack, text, code := e.error, e.stack, e.text, e.code;
    }

    /** The level the object currently holds. */
    function Value(): Error
      reads this
    {
      Error(error, stack, text, code)
    }
  }

  /** `SetCode`: on a nil receiver nothing happens; otherwise only the code
      changes. */
  method SetCode(err: ErrorNode?, code: Option<ErrorCode>)
    modifies err
    ensures err != null ==> err.Value() == old(err.Value()).(code := code)
  {
    if err == null {
      return;
    }
    err.code := code;
  }

  /** A code shows in the message only where the level's text is empty, and
      never changes the root cause. */
  lemma CodeOnlyFillsEmptyText(e: Error, code: Option<ErrorCode>)
    ensures e.text != "" ==> ErrorString(Some(e.(code := code))) == ErrorString(Some(e))
    ensures e.text == "" && code.Some? ==> code.value.message <= ErrorString(Some(e.(code := code)))
    ensures RootCause(Some(e.(code := code))) == RootCause(Some(e))
  {
  }
}
