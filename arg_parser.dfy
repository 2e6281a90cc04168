/**
 * The command-line flag parser of the HTTP test harness
 * (`parseArgs` in workflows/pre-pr/scripts/test-harness.js).
 *
 * Tokens are read in pairs, a flag and the token after it. Six flags are
 * recognised; any other flag is skipped together with the token after it.
 * The token list is a parameter here instead of being read from the process.
 */
module ArgParser {

  import opened Wrappers
  import opened JsStrings

  /**
   * The configuration record. A flag given as the very last token has no
   * value (JavaScript `undefined`); for `httpMethod` (the source's `method`), `path` and `baseUrl` that is
   * `None`. For `body`, `None` stands for both the default `null` and
   * `undefined`, which the rest of the program treats alike. A `timeout` of
   * `None` is the NaN that `parseInt` returns for text that is not a number.
   */
  datatype Config = Config(
    httpMethod: Option<string>,
    path: Option<string>,
    body: Option<string>,
    headers: map<string, string>,
    baseUrl: Option<string>,
    timeout: Option<int>)

  /**
   * Why parsing stops: the TypeError the source raises when a `--header`
   * has no value to split, or when its value has no `:` and so no second piece to trim.
   */
  datatype ParseError = HeaderValueMissing | HeaderWithoutColon(value: string)

  /** The configuration before any flag is read. */
  function Defaults(): Config {
    Config(Some("GET"), Some("/"), None, map[], Some("http://localhost:3000"), Some(10000))
  }

  predicate IsKnownFlag(flag: string) {
    flag in {"--method", "--path", "--body", "--header", "--base-url", "--timeout"}
  }

  /** The token after position i, or None (`undefined`) when there is none. */
  function ValueAt(args: seq<string>, i: nat): Option<string> {
    if i + 1 < |args| then Some(args[i + 1]) else None
  }

  /** JavaScript's string conversion of a possibly undefined argument. */
  function ToJsString(value: Option<string>): string {
    match value
    case Some(s) => s
    case None => "undefined"
  }

  /** `args` without its first n tokens (empty when there are fewer). */
  function Drop(args: seq<string>, n: nat): seq<string> {
    if n <= |args| then args[n..] else []
  }

  /** A flag sits at position i: an even position, since tokens go in pairs. */
  predicate FlagAt(args: seq<string>, i: int, flag: string) {
    0 <= i < |args| && i % 2 == 0 && args[i] == flag
  }

  /**
   * `--header value`: the trimmed text before the first colon names the
   * header and the trimmed text up to the next colon is its value; text
   * after a second colon is dropped. It fails without a value or a colon.
   */
  function HeaderEntry(value: Option<string>): (r: Result<(string, string), ParseError>)
    ensures r.Success? <==> value.Some? && ':' in value.value
    ensures value.None? ==> r == Failure(HeaderValueMissing)
    ensures value.Some? && ':' !in value.value ==> r == Failure(HeaderWithoutColon(value.value))
  {
    match value
    case None => Failure(HeaderValueMissing)
    case Some(v) =>
      var j := IndexOf(v, ':');
      if j == |v| then Failure(HeaderWithoutColon(v))
      else
        var after := v[j + 1..];
        Success((Trim(v[..j]), Trim(after[..IndexOf(after, ':')])))
  }

  /**
   * HeaderEntry is the source's `const [key, val] = value.split(':')` followed
   * by `key.trim()` and `val.trim()`: the first two pieces of the split, and
   * a failure when there is no second piece.
   */
  lemma HeaderEntryMatchesSplit(v: string)
    ensures var pieces := Split(v, ':');
            HeaderEntry(Some(v)) == if |pieces| < 2 then Failure(HeaderWithoutColon(v))
                                    else Success((Trim(pieces[0]), Trim(pieces[1])))
  {
    SplitHead(v, ':');
    if ':' in v {
      var after := v[IndexOf(v, ':') + 1..];
      SplitHead(after, ':');
      assert Split(v, ':')[1] == Split(after, ':')[0];
    }
  }

  /** With a single colon, `name:text` names the trimmed `name` with the trimmed `text`. */
  lemma OneColonHeader(name: string, text: string)
    requires ':' !in name && ':' !in text
    ensures HeaderEntry(Some(name + ":" + text)) == Success((Trim(name), Trim(text)))
  {
    assert name + ":" + text == name + [':'] + text;
    IndexOfAfterPrefix(name, ':', text);
    assert text[..IndexOf(text, ':')] == text;
  }

  /**
   * The header rule as evidently intended: the name is the text before the
   * first colon and the value everything after it, both trimmed.
   */
  function HeaderEntryFirstColon(value: Option<string>): (r: Result<(string, string), ParseError>)
    ensures r.Success? <==> value.Some? && ':' in value.value
    ensures value.None? ==> r == Failure(HeaderValueMissing)
    ensures value.Some? && ':' !in value.value ==> r == Failure(HeaderWithoutColon(value.value))
  {
    match value
    case None => Failure(HeaderValueMissing)
    case Some(v) =>
      var j := IndexOf(v, ':');
      if j == |v| then Failure(HeaderWithoutColon(v)) else Success((Trim(v[..j]), Trim(v[j + 1..])))
  }

  /** With the intended rule, `name: text` keeps all of `text`, colons included. */
  lemma FirstColonKeepsValue(name: string, text: string)
    requires ':' !in name
    ensures HeaderEntryFirstColon(Some(name + ":" + text)) == Success((Trim(name), Trim(text)))
  {
    IndexOfAfterPrefix(name, ':', text);
  }

  /** Cutting at a colon changes the trimmed text, since the colon itself survives trimming. */
  lemma CutAtColonChangesTrim(text: string)
    requires ':' in text
    ensures Trim(text[..IndexOf(text, ':')]) != Trim(text)
  {
    var cut := text[..IndexOf(text, ':')];
    TrimKeeps(text, IndexOf(text, ':'));
    if ':' in Trim(cut) {
      TrimOnlyRemoves(cut, ':');
      assert false;
    }
  }

  /**
   * The source's rule agrees with the intended one exactly when the text
   * after the first colon has no further colon; otherwise the source cuts
   * the value at that second colon.
   */
  lemma SplitHeaderAgreesIff(v: string)
    requires ':' in v
    ensures var after := v[IndexOf(v, ':') + 1..];
            HeaderEntry(Some(v)) == HeaderEntryFirstColon(Some(v)) <==> ':' !in after
  {
    var j := IndexOf(v, ':');
    var after := v[j + 1..];
    var cut := Trim(after[..IndexOf(after, ':')]);
    assert HeaderEntry(Some(v)) == Success((Trim(v[..j]), cut));
    assert HeaderEntryFirstColon(Some(v)) == Success((Trim(v[..j]), Trim(after)));
    if ':' !in after {
      assert after[..IndexOf(after, ':')] == after;
    } else {
      CutAtColonChangesTrim(after);
      assert cut != Trim(after);
    }
  }

  /**
   * A value with a colon of its own loses everything from that colon on:
   * `Host: localhost:3000` gives `Host` the value `localhost`, where the
   * intended rule gives `localhost:3000`.
   */
  lemma ColonInValueTruncates(name: string, host: string, port: string)
    requires ':' !in name && ':' !in host
    ensures HeaderEntry(Some(name + ":" + host + ":" + port)) == Success((Trim(name), Trim(host)))
    ensures HeaderEntryFirstColon(Some(name + ":" + host + ":" + port)) == Success((Trim(name), Trim(host + ":" + port)))
    ensures Trim(host) != Trim(host + ":" + port)
  {
    var after := host + ":" + port;
    assert name + ":" + host + ":" + port == name + [':'] + after;
    IndexOfAfterPrefix(name, ':', after);
    IndexOfAfterPrefix(host, ':', port);
    CutAtColonChangesTrim(after);
  }

  /**
   * `headers[key] = value` on a plain JavaScript object. The one key that
   * does not become an entry is `__proto__`: assigning a string to it goes
   * to the inherited prototype setter, which ignores anything but an object.
   */
  function SetHeader(headers: map<string, string>, key: string, value: string): (r: map<string, string>)
    ensures key == "__proto__" ==> r == headers
    ensures key != "__proto__" ==> r.Keys == headers.Keys + {key} && r[key] == value
    ensures forall k :: k in headers && k != key ==> k in r && r[k] == headers[k]
  {
    if key == "__proto__" then headers else headers[key := value]
  }

  /** The effect of one flag and the token after it on the configuration. */
  function Step(config: Config, flag: string, value: Option<string>, parseInt: string -> Option<int>): (r: Result<Config, ParseError>)
    ensures r.Failure? <==> flag == "--header" && HeaderEntry(value).Failure?
    ensures r.Failure? ==> r.error == HeaderEntry(value).error
    ensures !IsKnownFlag(flag) ==> r == Success(config)
  {
    if flag == "--method" then Success(config.(httpMethod := value))
    else if flag == "--path" then Success(config.(path := value))
    else if flag == "--body" then Success(config.(body := value))
    else if flag == "--header" then
      match HeaderEntry(value)
      case Failure(e) => Failure(e)
      case Success((key, val)) => Success(config.(headers := SetHeader(config.headers, key, val)))
    else if flag == "--base-url" then Success(config.(baseUrl := value))
    else if flag == "--timeout" then Success(config.(timeout := parseInt(ToJsString(value))))
    else Success(config)
  }

  /** Reads `args` pair by pair from `config`, stopping at the first failing step. */
  function Consume(config: Config, args: seq<string>, parseInt: string -> Option<int>): Result<Config, ParseError>
    decreases |args|
  {
    if args == [] then Success(config)
    else
      match Step(config, args[0], ValueAt(args, 0), parseInt)
      case Failure(e) => Failure(e)
      case Success(next) => Consume(next, Drop(args, 2), parseInt)
  }

  /** What `parseArgs` makes of a token list. */
  function Parsed(args: seq<string>, parseInt: string -> Option<int>): Result<Config, ParseError> {
    Consume(Defaults(), args, parseInt)
  }

  /** `parseArgs`: a loop over the tokens two at a time, updating one configuration record. */
  method ParseArgs(args: seq<string>, parseInt: string -> Option<int>) returns (r: Result<Config, ParseError>)
    ensures r == Parsed(args, parseInt)
  {
    var config := Defaults();
    var i := 0;
    while i < |args|
      invariant 0 <= i <= |args| + 1
      invariant Consume(config, Drop(args, i), parseInt) == Parsed(args, parseInt)
    {
      var flag := args[i];
      var value := if i + 1 < |args| then Some(args[i + 1]) else None;
      assert Drop(args, i)[0] == flag && ValueAt(Drop(args, i), 0) == value;
      assert Drop(Drop(args, i), 2) == Drop(args, i + 2);
      if flag == "--method" {
        config := config.(httpMethod := value);
      } else if flag == "--path" {
        config := config.(path := value);
      } else if flag == "--body" {
        config := config.(body := value);
      } else if flag == "--header" {
        var entry := HeaderEntry(value);
        if entry.Failure? {
          return Failure(entry.error);
        }
        var (key, val) := entry.value;
        config := config.(headers := SetHeader(config.headers, key, val));
      } else if flag == "--base-url" {
        config := config.(baseUrl := value);
      } else if flag == "--timeout" {
        config := config.(timeout := parseInt(ToJsString(value)));
      }
      i := i + 2;
    }
    return Success(config);
  }

  /** With no tokens the configuration is exactly the defaults. */
  lemma NoArgsGiveDefaults(parseInt: string -> Option<int>)
    ensures Parsed([], parseInt) == Success(Config(
      Some("GET"), Some("/"), None, map[], Some("http://localhost:3000"), Some(10000)))
  {
  }

  /** Positions in `Drop(args, 2)` are the positions in `args` two further on. */
  lemma DropShift(args: seq<string>)
    requires args != []
    ensures forall j, flag :: 0 <= j ==> (FlagAt(Drop(args, 2), j, flag) <==> FlagAt(args, j + 2, flag))
    ensures forall j :: 0 <= j ==> ValueAt(Drop(args, 2), j) == ValueAt(args, j + 2)
  {
  }

  /**
   * An unrecognised flag changes nothing, and the token after it is skipped
   * without being looked at: the result is that of the list without both.
   */
  lemma {:induction false} UnknownFlagSkipped(config: Config, prefix: seq<string>, flag: string, after: seq<string>, parseInt: string -> Option<int>)
    requires |prefix| % 2 == 0 && !IsKnownFlag(flag)
    ensures Consume(config, prefix + [flag] + after, parseInt) == Consume(config, prefix + Drop(after, 1), parseInt)
    decreases |prefix|
  {
    var whole := prefix + [flag] + after;
    if prefix == [] {
      assert whole == [flag] + after;
      assert Drop(whole, 2) == Drop(after, 1);
      assert prefix + Drop(after, 1) == Drop(after, 1);
      if Drop(after, 1) != [] {
        // The skipped flag was not last, so the remainder starts a fresh pair.
        assert Consume(config, whole, parseInt) == Consume(config, Drop(after, 1), parseInt);
      }
    } else {
      var shorter := prefix + Drop(after, 1);
      assert whole[0] == shorter[0] == prefix[0];
      assert ValueAt(whole, 0) == ValueAt(shorter, 0) == Some(prefix[1]);
      assert Drop(whole, 2) == prefix[2..] + [flag] + after;
      assert Drop(shorter, 2) == prefix[2..] + Drop(after, 1);
      match Step(config, prefix[0], Some(prefix[1]), parseInt)
      case Failure(_) =>
      case Success(next) =>
        UnknownFlagSkipped(next, prefix[2..], flag, after, parseInt);
    }
  }

  /**
   * The value given with the last occurrence of `flag`, or None when the
   * flag never occurs: the occurrence at the greatest flag position.
   */
  function LastValue(args: seq<string>, flag: string): Option<Option<string>>
    decreases |args|
  {
    if args == [] then None
    else
      match LastValue(Drop(args, 2), flag)
      case Some(v) => Some(v)
      case None => if args[0] == flag then Some(ValueAt(args, 0)) else None
  }

  /** LastValue finds no value exactly when the flag never occurs, and otherwise the value at its last occurrence. */
  lemma {:induction false} LastValueIsLast(args: seq<string>, flag: string)
    ensures LastValue(args, flag).None? <==> forall i :: !FlagAt(args, i, flag)
    ensures LastValue(args, flag).Some? ==>
      exists i :: FlagAt(args, i, flag) && LastValue(args, flag).value == ValueAt(args, i)
                  && forall j :: FlagAt(args, j, flag) ==> j <= i
    decreases |args|
  {
    if args != [] {
      var rest := Drop(args, 2);
      LastValueIsLast(rest, flag);
      DropShift(args);
      assert forall j :: FlagAt(args, j, flag) ==> j == 0 || FlagAt(rest, j - 2, flag);
      match LastValue(rest, flag)
      case Some(v) =>
        var i' :| FlagAt(rest, i', flag) && v == ValueAt(rest, i')
                  && forall j :: FlagAt(rest, j, flag) ==> j <= i';
        assert FlagAt(args, i' + 2, flag);
      case None =>
        if args[0] == flag {
          assert FlagAt(args, 0, flag);
        }
    }
  }

  /**
   * Each scalar field is set by the last occurrence of its flag and keeps
   * its starting value when its flag never occurs.
   */
  lemma {:induction false} LastOccurrenceWins(config: Config, args: seq<string>, parseInt: string -> Option<int>)
    requires Consume(config, args, parseInt).Success?
    ensures var c := Consume(config, args, parseInt).value;
      && c.httpMethod == LastValue(args, "--method").GetOr(config.httpMethod)
      && c.path == LastValue(args, "--path").GetOr(config.path)
      && c.body == LastValue(args, "--body").GetOr(config.body)
      && c.baseUrl == LastValue(args, "--base-url").GetOr(config.baseUrl)
      && c.timeout == match LastValue(args, "--timeout")
                      case Some(v) => parseInt(ToJsString(v))
                      case None => config.timeout
    decreases |args|
  {
    if args != [] {
      var next := Step(config, args[0], ValueAt(args, 0), parseInt).value;
      assert Consume(config, args, parseInt) == Consume(next, Drop(args, 2), parseInt);
      StepScalars(config, args[0], ValueAt(args, 0), parseInt);
      LastOccurrenceWins(next, Drop(args, 2), parseInt);
    }
  }

  /** A step sets the scalar field its flag names to the flag's value and leaves the others alone. */
  lemma StepScalars(config: Config, flag: string, value: Option<string>, parseInt: string -> Option<int>)
    requires Step(config, flag, value, parseInt).Success?
    ensures var c := Step(config, flag, value, parseInt).value;
      && c.httpMethod == (if flag == "--method" then value else config.httpMethod)
      && c.path == (if flag == "--path" then value else config.path)
      && c.body == (if flag == "--body" then value else config.body)
      && c.baseUrl == (if flag == "--base-url" then value else config.baseUrl)
      && c.timeout == (if flag == "--timeout" then parseInt(ToJsString(value)) else config.timeout)
  {
  }

  /** A lone `--header` adds its one entry to the defaults and changes nothing else. */
  lemma SingleHeaderFlag(v: string, key: string, val: string, parseInt: string -> Option<int>)
    requires HeaderEntry(Some(v)) == Success((key, val)) && key != "__proto__"
    ensures Parsed(["--header", v], parseInt) == Success(Defaults().(headers := map[key := val]))
  {
    var args := ["--header", v];
    assert args[0] == "--header" && ValueAt(args, 0) == Some(v) && Drop(args, 2) == [];
    assert Consume(Defaults(), args, parseInt) == Consume(Defaults().(headers := map[key := val]), [], parseInt);
  }

  /** `--header "name:text"` alone gives the defaults plus the header trimmed name to trimmed text. */
  lemma HeaderFlagParsed(name: string, text: string, parseInt: string -> Option<int>)
    requires ':' !in name && ':' !in text && Trim(name) != "__proto__"
    ensures Parsed(["--header", name + ":" + text], parseInt) == Success(Defaults().(headers := map[Trim(name) := Trim(text)]))
  {
    OneColonHeader(name, text);
    SingleHeaderFlag(name + ":" + text, Trim(name), Trim(text), parseInt);
  }

  /** Looking a key up in a header map. */
  function Lookup(headers: map<string, string>, key: string): Option<string> {
    if key in headers then Some(headers[key]) else None
  }

  /** Position i holds a well-formed `--header` whose trimmed name is `key`. */
  predicate SetsHeader(args: seq<string>, i: int, key: string) {
    && FlagAt(args, i, "--header")
    && HeaderEntry(ValueAt(args, i)).Success?
    && HeaderEntry(ValueAt(args, i)).value.0 == key
  }

  lemma SetsHeaderShiftAt(args: seq<string>, key: string, j: nat)
    requires args != []
    ensures SetsHeader(Drop(args, 2), j, key) <==> SetsHeader(args, j + 2, key)
  {
    assert FlagAt(Drop(args, 2), j, "--header") <==> FlagAt(args, j + 2, "--header");
    assert ValueAt(Drop(args, 2), j) == ValueAt(args, j + 2);
  }

  lemma SetsHeaderShift(args: seq<string>, key: string)
    requires args != []
    ensures forall j :: SetsHeader(args, j, key) ==> j == 0 || SetsHeader(Drop(args, 2), j - 2, key)
  {
    forall j | SetsHeader(args, j, key) && j != 0
      ensures SetsHeader(Drop(args, 2), j - 2, key)
    {
      SetsHeaderShiftAt(args, key, j - 2);
    }
  }

  /**
   * The value the last `--header` naming `key` gives it, or None when no
   * `--header` names it (and always None for `__proto__`, which is never stored).
   */
  function HeaderValue(args: seq<string>, key: string): Option<string>
    decreases |args|
  {
    if args == [] then None
    else
      match HeaderValue(Drop(args, 2), key)
      case Some(v) => Some(v)
      case None =>
        if key != "__proto__" && SetsHeader(args, 0, key) then Some(HeaderEntry(ValueAt(args, 0)).value.1) else None
  }

  /**
   * HeaderValue is always None for `__proto__`; for any other key it is None
   * exactly when no `--header` names the key, and otherwise the value of the
   * last one that does.
   */
  lemma {:induction false} HeaderValueIsLast(args: seq<string>, key: string)
    ensures key == "__proto__" ==> HeaderValue(args, key).None?
    ensures key != "__proto__" ==> (HeaderValue(args, key).None? <==> forall i :: !SetsHeader(args, i, key))
    ensures HeaderValue(args, key).Some? ==>
      exists i :: SetsHeader(args, i, key) && HeaderValue(args, key).value == HeaderEntry(ValueAt(args, i)).value.1
                  && forall j :: SetsHeader(args, j, key) ==> j <= i
    decreases |args|
  {
    if args != [] {
      var rest := Drop(args, 2);
      HeaderValueIsLast(rest, key);
      SetsHeaderShift(args, key);
      match HeaderValue(rest, key)
      case Some(v) =>
        var i' :| SetsHeader(rest, i', key) && v == HeaderEntry(ValueAt(rest, i')).value.1
                  && forall j :: SetsHeader(rest, j, key) ==> j <= i';
        SetsHeaderShiftAt(args, key, i');
      case None =>
    }
  }

  /**
   * The header map after parsing: a key holds the value of the last
   * `--header` naming it; a key no `--header` names keeps its starting entry.
   */
  lemma {:induction false} LastHeaderWins(config: Config, args: seq<string>, parseInt: string -> Option<int>, key: string)
    requires Consume(config, args, parseInt).Success?
    ensures Lookup(Consume(config, args, parseInt).value.headers, key)
            == match HeaderValue(args, key)
               case Some(v) => Some(v)
               case None => Lookup(config.headers, key)
    decreases |args|
  {
    if args != [] {
      var next := Step(config, args[0], ValueAt(args, 0), parseInt).value;
      assert Consume(config, args, parseInt) == Consume(next, Drop(args, 2), parseInt);
      LastHeaderWins(next, Drop(args, 2), parseInt, key);
      if HeaderValue(Drop(args, 2), key).None? {
        if args[0] == "--header" {
          var (k, v) := HeaderEntry(ValueAt(args, 0)).value;
          assert next.headers == SetHeader(config.headers, k, v);
          assert SetsHeader(args, 0, key) <==> k == key;
        } else {
          assert next.headers == config.headers;
          assert !SetsHeader(args, 0, key);
        }
      }
    }
  }

  /** Every header key a successful parse stores is trimmed: it neither starts nor ends with white space. */
  lemma ParsedKeysTrimmed(args: seq<string>, parseInt: string -> Option<int>, k: string)
    requires Parsed(args, parseInt).Success? && k in Parsed(args, parseInt).value.headers
    ensures Tight(k)
  {
    LastHeaderWins(Defaults(), args, parseInt, k);
    HeaderValueIsLast(args, k);
    var i :| SetsHeader(args, i, k);
    var v := ValueAt(args, i).value;
    assert k == Trim(v[..IndexOf(v, ':')]);
  }

  /** Position i holds a `--header` the source cannot split into a name and a value. */
  predicate BadHeaderAt(args: seq<string>, i: int) {
    FlagAt(args, i, "--header") && HeaderEntry(ValueAt(args, i)).Failure?
  }

  /**
   * Parsing fails exactly when some `--header` lacks a value or a colon,
   * and it fails with the error of the first such header.
   */
  lemma {:induction false} FailsOnFirstBadHeader(config: Config, args: seq<string>, parseInt: string -> Option<int>)
    ensures Consume(config, args, parseInt).Failure? <==> exists i :: BadHeaderAt(args, i)
    ensures Consume(config, args, parseInt).Failure? ==>
      exists i :: BadHeaderAt(args, i) && Consume(config, args, parseInt).error == HeaderEntry(ValueAt(args, i)).error
                  && forall j :: BadHeaderAt(args, j) ==> i <= j
    decreases |args|
  {
    if args != [] {
      DropShift(args);
      assert forall j :: 0 <= j ==> (BadHeaderAt(Drop(args, 2), j) <==> BadHeaderAt(args, j + 2));
      assert forall j :: BadHeaderAt(args, j) ==> j == 0 || BadHeaderAt(Drop(args, 2), j - 2);
      match Step(config, args[0], ValueAt(args, 0), parseInt)
      case Failure(e) =>
        assert BadHeaderAt(args, 0);
      case Success(next) =>
        assert !BadHeaderAt(args, 0);
        FailsOnFirstBadHeader(next, Drop(args, 2), parseInt);
        if Consume(next, Drop(args, 2), parseInt).Failure? {
          var i' :| BadHeaderAt(Drop(args, 2), i') && Consume(next, Drop(args, 2), parseInt).error == HeaderEntry(ValueAt(Drop(args, 2), i')).error
                    && forall j :: BadHeaderAt(Drop(args, 2), j) ==> i' <= j;
          assert BadHeaderAt(args, i' + 2);
        }
    }
  }
}
