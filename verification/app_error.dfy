/**
 * The application error class (`AppError`): a message, an HTTP status code,
 * the status word derived from the code, and the static factories with
 * their fixed codes and default messages.  `Thrown` is anything a handler
 * can throw: an `AppError`, or a foreign error (a database driver error
 * carrying an SQLSTATE code, a `TypeError`, a token-verifier error).
 */
module AppErrors {
  import opened Prelude
  import Text

  /** The status word: "fail" when the decimal rendering of the code begins
      with '4', "error" otherwise. */
  function StatusWord(code: int): string {
    if Text.StartsWith(Text.IntToDecimal(code), "4") then "fail" else "error"
  }

  /** An `AppError`.  `status` is not stored: it is always `StatusWord` of
      the code, which is how the constructor computes it. */
  datatype AppError = AppError(message: string, statusCode: int, isOperational: bool) {
    function Status(): string {
      StatusWord(statusCode)
    }
  }

  /** `new AppError(message, statusCode)`. */
  function NewAppError(message: string, statusCode: int): (e: AppError)
    ensures e.isOperational
    ensures e.message == message && e.statusCode == statusCode
  {
    AppError(message, statusCode, true)
  }

  /** The static factories, plus the `forbidden` one the controllers call. */
  datatype Factory = BadRequest | Unauthorized | Forbidden | NotFound | MethodNotAllowed | Conflict | Internal

  function DefaultCode(f: Factory): int {
    match f
    case BadRequest => 400
    case Unauthorized => 401
    case Forbidden => 403
    case NotFound => 404
    case MethodNotAllowed => 405
    case Conflict => 409
    case Internal => 500
  }

  /** The `message || "<default>"` fallback text of each factory.  The
      source defines no `forbidden` factory; its default text is ours and is
      never used, because every caller passes a message. */
  function DefaultMessage(f: Factory): string {
    match f
    case BadRequest => "Bad request"
    case Unauthorized => "Unauthorized"
    case Forbidden => "Forbidden"
    case NotFound => "Not found"
    case MethodNotAllowed => "Method not allowed"
    case Conflict => "Conflict"
    case Internal => "Internal server error"
  }

  /** `AppError.<factory>(message)`: a missing or empty message falls back to
      the default text. */
  function Raise(f: Factory, message: Option<string>): (e: AppError)
    ensures e.statusCode == DefaultCode(f)
    ensures message.Some? && message.value != "" ==> e.message == message.value
    ensures message.None? || message.value == "" ==> e.message == DefaultMessage(f)
    ensures e.isOperational
  {
    var text := if message.Some? && message.value != "" then message.value else DefaultMessage(f);
    NewAppError(text, DefaultCode(f))
  }

  /** The factory table: each factory's code and fallback text, and an
      empty message counts as no message at all. */
  lemma FactoryDefaults(f: Factory)
    ensures Raise(f, Some("")) == Raise(f, None)
    ensures Raise(BadRequest, None) == AppError("Bad request", 400, true)
    ensures Raise(Unauthorized, None) == AppError("Unauthorized", 401, true)
    ensures Raise(NotFound, None) == AppError("Not found", 404, true)
    ensures Raise(MethodNotAllowed, None) == AppError("Method not allowed", 405, true)
    ensures Raise(Conflict, None) == AppError("Conflict", 409, true)
    ensures Raise(Internal, None) == AppError("Internal server error", 500, true)
    ensures Raise(BadRequest, None).Status() == "fail" && Raise(Internal, None).Status() == "error"
  {
    ClientAndServerCodes(400);
    ClientAndServerCodes(500);
  }

  /** What a handler throws. */
  datatype Thrown =
    | App(err: AppError)
    | Raw(name: string, code: Option<string>)

  /** `err.name`: an `AppError` inherits "Error" from `Error.prototype`. */
  function Name(t: Thrown): string {
    match t
    case App(_) => "Error"
    case Raw(name, _) => name
  }

  /** `throw AppError.<factory>(message)` with a literal message. */
  function Fail(f: Factory, message: string): Thrown {
    App(Raise(f, Some(message)))
  }

  /** A database driver error with the given SQLSTATE code. */
  function DbError(sqlState: string): Thrown {
    Raw("error", Some(sqlState))
  }

  /** Calling a factory the class does not define throws a `TypeError`. */
  const UndefinedFactoryCall: Thrown := Raw("TypeError", None)

  // ---------------------------------------------------------------------
  // Properties of the status word

  /** `n` lies in [4·10^k, 5·10^k) for some k: its leading digit is 4. */
  ghost predicate LeadsWithFour(n: nat) {
    exists k: nat :: 4 * Text.Pow10(k) <= n < 5 * Text.Pow10(k)
  }

  lemma Pow10AtLeastTen(k: nat)
    requires k >= 1
    ensures Text.Pow10(k) >= 10
  {
  }

  /** Dropping the last digit keeps the leading digit. */
  lemma LeadsWithFourShift(n: nat)
    requires n >= 10
    ensures LeadsWithFour(n) <==> LeadsWithFour(n / 10)
  {
    if LeadsWithFour(n) {
      var k: nat :| 4 * Text.Pow10(k) <= n < 5 * Text.Pow10(k);
      if k == 0 {
        assert false;
      }
      var m := Text.Pow10(k - 1);
      assert Text.Pow10(k) == 10 * m;
      assert 4 * m <= n / 10 < 5 * m;
      assert 4 * Text.Pow10(k - 1) <= n / 10 < 5 * Text.Pow10(k - 1);
    }
    if LeadsWithFour(n / 10) {
      var j: nat :| 4 * Text.Pow10(j) <= n / 10 < 5 * Text.Pow10(j);
      var m := Text.Pow10(j);
      assert Text.Pow10(j + 1) == 10 * m;
      assert 40 * m <= n < 50 * m;
      assert 4 * Text.Pow10(j + 1) <= n < 5 * Text.Pow10(j + 1);
    }
  }

  /** The first character of the rendering is '4' exactly when the number
      leads with the digit four. */
  lemma {:induction false} FirstDigitFour(n: nat)
    ensures Text.NatToDecimal(n)[0] == '4' <==> LeadsWithFour(n)
  {
    if n < 10 {
      if n == 4 {
        assert 4 * Text.Pow10(0) <= n < 5 * Text.Pow10(0);
      } else if LeadsWithFour(n) {
        var k: nat :| 4 * Text.Pow10(k) <= n < 5 * Text.Pow10(k);
        if k >= 1 {
          Pow10AtLeastTen(k);
        }
      }
    } else {
      FirstDigitFour(n / 10);
      LeadsWithFourShift(n);
    }
  }

  /** `status` is "fail" exactly for the codes whose leading decimal digit
      is 4 (4, 40–49, 400–499, …) and "error" for every other code,
      negative ones included. */
  lemma StatusFailIffLeadingFour(code: int)
    ensures StatusWord(code) == "fail" <==> code >= 0 && LeadsWithFour(code)
    ensures StatusWord(code) == "fail" || StatusWord(code) == "error"
  {
    var s := Text.IntToDecimal(code);
    if code >= 0 {
      FirstDigitFour(code);
      assert Text.StartsWith(s, "4") <==> s[0] == '4';
    } else {
      assert s[0] == '-';
    }
  }

  /** Every 4xx code fails, every 5xx code errs. */
  lemma ClientAndServerCodes(code: int)
    ensures 400 <= code <= 499 ==> StatusWord(code) == "fail"
    ensures 500 <= code <= 599 ==> StatusWord(code) == "error"
  {
    StatusFailIffLeadingFour(code);
    if 400 <= code <= 499 {
      assert Text.Pow10(2) == 100;
      assert 4 * Text.Pow10(2) <= code < 5 * Text.Pow10(2);
    }
    if 500 <= code <= 599 && LeadsWithFour(code) {
      var k: nat :| 4 * Text.Pow10(k) <= code < 5 * Text.Pow10(k);
      Pow10Grid(k);
    }
  }

  /** No interval [4·10^k, 5·10^k) meets [500, 600). */
  lemma Pow10Grid(k: nat)
    ensures 5 * Text.Pow10(k) <= 500 || 4 * Text.Pow10(k) >= 600
  {
    if k >= 3 {
      Pow10Monotone(3, k);
      assert Text.Pow10(3) == 1000;
    } else {
      assert Text.Pow10(0) == 1 && Text.Pow10(1) == 10 && Text.Pow10(2) == 100;
    }
  }

  lemma {:induction false} Pow10Monotone(j: nat, k: nat)
    requires j <= k
    ensures Text.Pow10(j) <= Text.Pow10(k)
    decreases k - j
  {
    if j < k {
      Pow10Monotone(j, k - 1);
    }
  }

  /** Every factory but `internal` yields "fail"; `internal` yields "error". */
  lemma FactoryStatus(f: Factory, message: Option<string>)
    ensures Raise(f, message).Status() == (if f == Internal then "error" else "fail")
  {
    ClientAndServerCodes(DefaultCode(f));
  }
}
