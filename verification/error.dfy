/**
 The application error type: the numeric error-code table, errors carrying a
 code and a tagged message, and the result type whose `?` operator returns
 early on an error. Dafny's `:-` is the `?` operator here: `IsFailure`,
 `PropagateFailure` and `Extract` play the parts of `Try::branch`,
 `FromResidual` and the continue value.
 */
module Error {

  import opened Seqs

  datatype ErrorCode =
    | Timestamp
    | TeamSize
    | NotFound
    | Validation
    | ActiveGame
    | ExpiredGame
    | TooManyWords
    | InvalidGameToken
    | InvalidLoginOrPassword
    | Infrastructure

  /** The discriminant of each code, as `error_code as i32` yields it. */
  function CodeValue(c: ErrorCode): int {
    match c
    case Timestamp => 1
    case TeamSize => 2
    case NotFound => 3
    case Validation => 4
    case ActiveGame => 5
    case ExpiredGame => 6
    case TooManyWords => 7
    case InvalidGameToken => 8
    case InvalidLoginOrPassword => 9
    case Infrastructure => 1000
  }

  /** The code carrying a discriminant, if any: the inverse of `CodeValue`. */
  function CodeOfValue(v: int): (r: Option<ErrorCode>)
    ensures r.Some? ==> CodeValue(r.value) == v
  {
    if v == 1 then Some(Timestamp)
    else if v == 2 then Some(TeamSize)
    else if v == 3 then Some(NotFound)
    else if v == 4 then Some(Validation)
    else if v == 5 then Some(ActiveGame)
    else if v == 6 then Some(ExpiredGame)
    else if v == 7 then Some(TooManyWords)
    else if v == 8 then Some(InvalidGameToken)
    else if v == 9 then Some(InvalidLoginOrPassword)
    else if v == 1000 then Some(Infrastructure)
    else None
  }

  /** Distinct codes have distinct discriminants, and every discriminant decodes back. */
  lemma CodeValueRoundTrip(c: ErrorCode, d: ErrorCode)
    ensures CodeOfValue(CodeValue(c)) == Some(c)
    ensures CodeValue(c) == CodeValue(d) ==> c == d
  {
  }

  /** The `Debug` rendering of a code: its variant name. */
  function CodeName(c: ErrorCode): string {
    match c
    case Timestamp => "Timestamp"
    case TeamSize => "TeamSize"
    case NotFound => "NotFound"
    case Validation => "Validation"
    case ActiveGame => "ActiveGame"
    case ExpiredGame => "ExpiredGame"
    case TooManyWords => "TooManyWords"
    case InvalidGameToken => "InvalidGameToken"
    case InvalidLoginOrPassword => "InvalidLoginOrPassword"
    case Infrastructure => "Infrastructure"
  }

  datatype VortoError = VortoError(code: int, message: string)

  /** Length of the "[Name] " tag that `NewError` puts before the text. */
  function TagLength(c: ErrorCode): nat {
    |CodeName(c)| + 3
  }

  /**
   `VortoError::new`: the code's discriminant, and the text behind a tag
   naming the code. Both the code and the text can be read back.
   */
  function NewError(c: ErrorCode, text: string): (e: VortoError)
    ensures CodeOfValue(e.code) == Some(c)
    ensures |e.message| == TagLength(c) + |text|
    ensures e.message[..TagLength(c)] == "[" + CodeName(c) + "] "
    ensures e.message[TagLength(c)..] == text
  {
    VortoError(CodeValue(c), "[" + CodeName(c) + "] " + text)
  }

  /** Errors built from different codes or different texts differ. */
  lemma NewErrorInjective(c: ErrorCode, t: string, d: ErrorCode, u: string)
    requires NewError(c, t) == NewError(d, u)
    ensures c == d && t == u
  {
    assert CodeOfValue(NewError(c, t).code) == Some(c);
    assert CodeOfValue(NewError(d, u).code) == Some(d);
  }

  /** `ControlFlow`: what `Try::branch` returns. */
  datatype ControlFlow<B, C> = Continue(c: C) | Break(b: B)

  datatype VortoResult<+T> = Ok(value: T) | Err(error: VortoError) {

    predicate IsFailure() {
      Err?
    }

    /** `FromResidual<VortoResult<U>>`: the error is passed on unchanged. */
    function PropagateFailure<U>(): (r: VortoResult<U>)
      requires Err?
      ensures r.Err? && r.error == error
    {
      Err(error)
    }

    function Extract(): T
      requires Ok?
    {
      value
    }

    function IsOk(): bool {
      match this
      case Ok(_) => true
      case _ => false
    }

    function IsErr(): bool {
      !IsOk()
    }

    /** `unwrap` panics on an error, so it demands an `Ok`. */
    function Unwrap(): T
      requires Ok?
    {
      match this
      case Ok(data) => data
    }

    /** `expect` panics with its message on an error, so it demands an `Ok`. */
    function Expect(message: string): T
      requires Ok?
    {
      match this
      case Ok(data) => data
    }

    /** `Try::branch`: continue with the value, or break with the error result. */
    function Branch(): ControlFlow<VortoResult<T>, T> {
      match this
      case Ok(c) => Continue(c)
      case Err(e) => Break(Err(e))
    }
  }

  /** `Try::from_output`. */
  function FromOutput<T>(c: T): VortoResult<T> {
    Ok(c)
  }

  /** The status queries and the `Try` plumbing agree with each other. */
  lemma ResultLaws<T>(r: VortoResult<T>, c: T)
    ensures r.IsOk() <==> r.Ok?
    ensures r.IsErr() <==> r.Err?
    ensures r.Ok? ==> r.Unwrap() == r.value && r.Expect("") == r.value
    ensures FromOutput(c).Branch() == Continue(c)
    ensures FromOutput(c).Unwrap() == c
    ensures r.Ok? ==> r.Branch() == Continue(r.value)
    ensures r.Err? ==> r.Branch() == Break(r) && r.PropagateFailure<T>() == r
  {
  }

  /** Failures of foreign libraries that `?` converts into application errors. */
  datatype ForeignError =
    | SqlxError(text: string)
    | Argon2Error(text: string)
    | ReqwestError(text: string)
    | BorrowError(text: string)
    | IoError(text: string)
    | JwtError(text: string)

  /** The error a foreign failure becomes: Infrastructure, with the failure's text behind the tag. */
  function ForeignToError(f: ForeignError): (e: VortoError)
    ensures CodeOfValue(e.code) == Some(Infrastructure)
    ensures |e.message| >= TagLength(Infrastructure)
    ensures e.message[TagLength(Infrastructure)..] == f.text
  {
    NewError(Infrastructure, f.text)
  }

  /** The `FromResidual` conversions of foreign errors. */
  function FromForeign<T>(f: ForeignError): VortoResult<T> {
    Err(ForeignToError(f))
  }

  /** The error `?` makes of a missing `Option` value. */
  function MissingOptionError(): (e: VortoError)
    ensures CodeOfValue(e.code) == Some(Infrastructure)
    ensures |e.message| >= TagLength(Infrastructure)
    ensures e.message[TagLength(Infrastructure)..] == "Option value is missing"
  {
    NewError(Infrastructure, "Option value is missing")
  }

  /** `?` on a missing `Option` value. */
  function FromMissingOption<T>(): VortoResult<T> {
    Err(MissingOptionError())
  }
}
