/**
 * The string-level logic of the built-in handlers of src/handlers.js: the
 * grammar of `env:` references and `echo:` values, the filter syntax
 * `name:param:...`, the default `b` and `!b` filters, the split of
 * `/pattern/flags` done by `toRegexp`, the `merge`/`replace` options and the
 * lookup order of an environment variable's value.
 */
module Handlers {
  import opened Basics
  import opened Text

  /** A JavaScript value as the handlers receive it. `Ref` is any object or
      function; numbers are integers here. */
  datatype Val =
    | Undef
    | Null
    | Bool(b: bool)
    | Str(s: string)
    | Num(n: int)
    | Ref(id: nat)

  /** JavaScript truthiness of a handler value (the resolver's `Falsy` is
      over its own argument type). */
  predicate Truthy(v: Val) {
    match v
    case Undef => false
    case Null => false
    case Bool(b) => b
    case Str(s) => s != ""
    case Num(n) => n != 0
    case Ref(_) => true
  }

  /** A filter function: the six defaults of `DEFAULT_FILTERS`, or one supplied
      through `options.filters`. */
  datatype Filter = Parse | Flag | NotFlag | Regex | From | To | Custom(id: nat)

  /** What a handler returns: a plain value, the pattern and flags `toRegexp`
      hands to `new RegExp`, or the call of a filter whose body is not part
      of this model. */
  datatype Output =
    | Value(v: Val)
    | Regexp(pattern: string, flags: Val)
    | Applied(filter: Filter, input: Val, params: seq<string>)

  /** The errors the handlers throw. `NotAString` and `NoMatch` are the
      TypeErrors of calling `match` on a non-string and of destructuring a
      failed match. */
  datatype HandlerError =
    | InvalidEnv(value: string)
    | UnknownEnvFilter(value: string)
    | InvalidEcho(value: string)
    | UnknownEchoFilter(value: string)
    | NotAString
    | NoMatch

  /** The options object of `env(options)` and `echo(options)`; `None` is an
      absent (undefined) property. */
  datatype Options = Options(
    filters: Option<map<string, Filter>>,
    merge: Val,
    replace: Val,
    env: Option<map<string, Val>>,
    defaults: Option<map<string, Val>>)

  /** `DEFAULT_FILTERS`. */
  const DefaultFilters: map<string, Filter> :=
    map["d" := Parse, "b" := Flag, "!b" := NotFlag, "r" := Regex, "from" := From, "to" := To]

  /** `shouldMerge`: whether user filters are laid over the defaults. `merge`
      takes precedence over `replace`; an explicit `merge: false` alone also
      replaces; with neither option the filters are merged. */
  function ShouldMerge(merge: Val, replace: Val): (r: bool)
    ensures Truthy(merge) ==> r
    ensures !Truthy(merge) && Truthy(replace) ==> !r
    ensures merge == Bool(false) && replace == Undef ==> !r
    ensures !Truthy(replace) && merge != Bool(false) ==> r
    ensures r <==> Truthy(merge) || (!Truthy(replace) && !(merge == Bool(false) && replace == Undef))
  {
    if Truthy(merge) then true
    else if Truthy(replace) then false
    else if merge == Bool(false) && replace == Undef then false
    else true
  }

  /** The filters a handler dispatches to: the defaults when no filters are
      given, otherwise the defaults overlaid with the given ones when merging,
      or the given ones alone. */
  function FilterSet(options: Options): (r: map<string, Filter>)
    ensures options.filters.None? ==> r == DefaultFilters
    ensures options.filters.Some? ==>
              forall n | n in options.filters.value :: n in r && r[n] == options.filters.value[n]
    ensures forall n | n in r && (options.filters.None? || n !in options.filters.value) ::
              n in DefaultFilters && r[n] == DefaultFilters[n]
    ensures options.filters.Some? && ShouldMerge(options.merge, options.replace) ==>
              forall n | n in DefaultFilters :: n in r
    ensures options.filters.Some? && !ShouldMerge(options.merge, options.replace) ==>
              r.Keys == options.filters.value.Keys
  {
    match options.filters
    case None => DefaultFilters
    case Some(given) =>
      if ShouldMerge(options.merge, options.replace) then DefaultFilters + given else given
  }

  /** The values `b` reads as false: `''`, `'false'`, `'0'` and undefined. */
  predicate IsFalseFlag(v: Val) {
    v == Str("") || v == Str("false") || v == Str("0") || v == Undef
  }

  /** Calls filter `f` on `input` with the parameters of its spec. `b` and `!b`
      are computed; `r` is `toRegexp` on its first parameter; the others are
      recorded as the call they make. */
  function Apply(f: Filter, input: Val, params: seq<string>): (r: Result<Output, HandlerError>)
    ensures f == Flag ==> r == Ok(Value(Bool(!IsFalseFlag(input))))
    ensures f == NotFlag ==> r == Ok(Value(Bool(IsFalseFlag(input))))
    ensures f == Regex ==> (r.Ok? <==> input.Str?)
  {
    match f
    case Flag => Ok(Value(Bool(!IsFalseFlag(input))))
    case NotFlag => Ok(Value(Bool(IsFalseFlag(input))))
    case Regex =>
      (match input
       case Str(s) => Ok(ToRegexp(s, if |params| > 0 then Str(params[0]) else Undef))
       case _ => Err(NotAString))
    case _ => Ok(Applied(f, input, params))
  }

  /** `b` and `!b` always disagree, and `b` is false on exactly four values. */
  lemma FlagsAreNegations(input: Val, params: seq<string>)
    ensures Apply(Flag, input, params).Ok? && Apply(NotFlag, input, params).Ok?
    ensures Apply(Flag, input, params).value.v.b == !Apply(NotFlag, input, params).value.v.b
    ensures Apply(Flag, input, params) == Ok(Value(Bool(false)))
        <==> input in {Str(""), Str("false"), Str("0"), Undef}
  {
  }

  /** Runs the filter spec `spec` (text after `|`) on `input`: the trimmed spec
      is split on `:` into a name and its parameters; an unknown name is the
      error `unknown`. */
  function RunFilter(filters: map<string, Filter>, spec: string, input: Val, unknown: HandlerError)
    : (r: Result<Output, HandlerError>)
    ensures Split(Trim(spec), ':')[0] !in filters ==> r == Err(unknown)
    ensures r.Ok? ==> Split(Trim(spec), ':')[0] in filters
  {
    var parts := Split(Trim(spec), ':');
    var name := parts[0];
    if name in filters then Apply(filters[name], input, parts[1..]) else Err(unknown)
  }

  /** A spec written as a name and parameters free of `:`, with no space at
      either end, calls that name with exactly those parameters. */
  lemma RunFilterSpec(filters: map<string, Filter>, name: string, params: seq<string>, input: Val,
                      unknown: HandlerError)
    requires ':' !in name && forall k | 0 <= k < |params| :: ':' !in params[k]
    requires var spec := Join([name] + params, ':');
             spec == [] || (!IsJsSpace(spec[0]) && !IsJsSpace(spec[|spec| - 1]))
    ensures RunFilter(filters, Join([name] + params, ':'), input, unknown)
         == if name in filters then Apply(filters[name], input, params) else Err(unknown)
  {
    var spec := Join([name] + params, ':');
    TrimKeeps(spec);
    SplitJoin([name] + params, ':');
    assert ([name] + params)[1..] == params;
  }

  // ---------------------------------------------------------------------
  // The regular expressions, matched the way a backtracking engine does.
  // ---------------------------------------------------------------------

  /** The continuation `(?:[|](.+))?$`: either nothing is left, or a `|`
      followed by at least one character, none of them a line terminator. */
  predicate FilterTail(t: string) {
    t == [] || (t[0] == '|' && |t| >= 2 && Dotted(t[1..]))
  }

  /** The filter a matching continuation captures. */
  function TailFilter(t: string): (f: Option<string>)
    requires FilterTail(t)
    ensures f.None? <==> t == []
    ensures f.Some? ==> t == "|" + f.value && f.value != [] && Dotted(f.value)
  {
    if t == [] then None else Some(t[1..])
  }

  /** A lazy group `(.*?)` starting at 0 and already holding `t[..k]`: the
      first end position from `k` on at which the continuation matches,
      never stepping over a line terminator. */
  function LazyCut(t: string, k: nat): (r: Option<nat>)
    requires k <= |t|
    ensures r.Some? ==> k <= r.value <= |t| && Dotted(t[k..r.value]) && FilterTail(t[r.value..])
    ensures r.Some? ==> forall j | k <= j < r.value :: !FilterTail(t[j..])
    ensures r.None? ==> forall j | k <= j <= |t| && Dotted(t[k..j]) :: !FilterTail(t[j..])
    decreases |t| - k
  {
    if FilterTail(t[k..]) then Some(k)
    else if k < |t| && !IsLineTerminator(t[k]) then
      var r := LazyCut(t, k + 1);
      assert forall j | k + 1 <= j <= |t| :: t[k..j] == [t[k]] + t[k + 1..j];
      r
    else
      assert forall j | k < j <= |t| :: t[k..j][0] == t[k];
      None
  }

  /** An `env:` reference: `name[:-default][|filter]`. */
  datatype EnvRef = EnvRef(name: string, default: Option<string>, filter: Option<string>)

  /** An optional capture of `(.+)` or `(.+?)`: absent, or non-empty without line terminators. */
  predicate Capture(c: Option<string>) {
    c.Some? ==> c.value != [] && Dotted(c.value)
  }

  /** The grammar of `/^([\w_]+)(?::-(.+?))?(?:[|](.+))?$/` read as a
      grammar: a non-empty name of word characters, an optional default and
      an optional filter. */
  predicate WellFormed(e: EnvRef) {
    && e.name != [] && (forall i | 0 <= i < |e.name| :: IsWordChar(e.name[i]))
    && Capture(e.default) && Capture(e.filter)
  }

  function DefaultText(d: Option<string>): string {
    match d case None => "" case Some(x) => ":-" + x
  }

  function FilterText(f: Option<string>): string {
    match f case None => "" case Some(x) => "|" + x
  }

  /** The text of a reference. */
  function Render(e: EnvRef): string {
    e.name + DefaultText(e.default) + FilterText(e.filter)
  }

  /** A written filter is a matching continuation that captures it back. */
  lemma FilterTextTail(f: Option<string>)
    requires Capture(f)
    ensures FilterTail(FilterText(f)) && TailFilter(FilterText(f)) == f
  {
    if f.Some? {
      assert FilterText(f)[1..] == f.value;
    }
  }

  /** The default group `(.+?)` over `t`, the text after `:-`: at least one
      character, then the first position at which the continuation matches. */
  function DefaultCut(t: string): Option<(string, Option<string>)> {
    if t != [] && !IsLineTerminator(t[0]) then
      match LazyCut(t, 1)
      case None => None
      case Some(k) => Some((t[..k], TailFilter(t[k..])))
    else None
  }

  lemma DefaultCutSound(t: string)
    ensures DefaultCut(t).Some? ==>
              var (d, f) := DefaultCut(t).value;
              Capture(Some(d)) && Capture(f) && t == d + FilterText(f)
  {
    if t != [] && !IsLineTerminator(t[0]) {
      match LazyCut(t, 1)
      case None =>
      case Some(k) =>
        assert t[..k] == [t[0]] + t[1..k];
        assert t == t[..k] + t[k..];
    }
  }

  /** A default followed by a written filter is always cut somewhere, and
      exactly at its end when it holds no `|`. */
  lemma DefaultCutComplete(d: string, f: Option<string>)
    requires Capture(Some(d)) && Capture(f)
    ensures DefaultCut(d + FilterText(f)).Some?
    ensures '|' !in d ==> DefaultCut(d + FilterText(f)) == Some((d, f))
  {
    var t := d + FilterText(f);
    FilterTextTail(f);
    assert t[..|d|] == d && t[|d|..] == FilterText(f);
    assert t[1..|d|] == d[1..];
    if '|' !in d {
      forall j | 1 <= j < |d| ensures !FilterTail(t[j..]) {
        assert t[j..][0] == d[j];
      }
    }
  }

  /** What follows the name: nothing or a filter, or `:-` and a default. */
  function ParseRest(rest: string): Option<(Option<string>, Option<string>)> {
    if FilterTail(rest) then Some((None, TailFilter(rest)))
    else if |rest| >= 2 && rest[..2] == ":-" then
      match DefaultCut(rest[2..])
      case None => None
      case Some((d, f)) => Some((Some(d), f))
    else None
  }

  lemma ParseRestSound(rest: string)
    ensures ParseRest(rest).Some? ==>
              var (d, f) := ParseRest(rest).value;
              Capture(d) && Capture(f) && rest == DefaultText(d) + FilterText(f)
  {
    if !FilterTail(rest) && |rest| >= 2 && rest[..2] == ":-" {
      DefaultCutSound(rest[2..]);
      assert rest == ":-" + rest[2..];
    }
  }

  lemma ParseRestComplete(d: Option<string>, f: Option<string>)
    requires Capture(d) && Capture(f)
    ensures ParseRest(DefaultText(d) + FilterText(f)).Some?
    ensures (d.Some? ==> '|' !in d.value) ==> ParseRest(DefaultText(d) + FilterText(f)) == Some((d, f))
  {
    if d.Some? {
      ParseRestDefault(d.value, f);
    } else {
      FilterTextTail(f);
      assert DefaultText(d) + FilterText(f) == FilterText(f);
    }
  }

  lemma ParseRestDefault(d: string, f: Option<string>)
    requires Capture(Some(d)) && Capture(f)
    ensures ParseRest(":-" + d + FilterText(f)).Some?
    ensures '|' !in d ==> ParseRest(":-" + d + FilterText(f)) == Some((Some(d), f))
  {
    var rest := ":-" + d + FilterText(f);
    assert rest[0] == ':';
    assert rest[..2] == ":-" && rest[2..] == d + FilterText(f);
    DefaultCutComplete(d, f);
  }

  /** The match of the env pattern: the longest word prefix is the name; the
      default, when `:-` follows, is the shortest text after which the
      continuation matches; otherwise the continuation must match at once. */
  function ParseEnv(value: string): (r: Option<EnvRef>)
    ensures value == [] ==> r.None?
    ensures r.Some? ==> r.value.name != [] && r.value.name <= value
    ensures r.Some? ==> forall i | 0 <= i < |r.value.name| :: IsWordChar(r.value.name[i])
  {
    var n := WordPrefix(value);
    if n == 0 then None
    else
      match ParseRest(value[n..])
      case None => None
      case Some((d, f)) => Some(EnvRef(value[..n], d, f))
  }

  /** What is matched is in the grammar and spells the value back. */
  lemma ParseEnvSound(value: string)
    ensures ParseEnv(value).Some? ==> WellFormed(ParseEnv(value).value) && Render(ParseEnv(value).value) == value
  {
    var n := WordPrefix(value);
    if n > 0 {
      ParseRestSound(value[n..]);
      if ParseRest(value[n..]).Some? {
        var (d, f) := ParseRest(value[n..]).value;
        NameAndRest(value, n, d, f);
      }
    }
  }

  /** A word prefix followed by the text of a default and a filter is a
      well-formed reference spelling the value. */
  lemma NameAndRest(value: string, n: nat, d: Option<string>, f: Option<string>)
    requires 0 < n <= |value| && forall i | 0 <= i < n :: IsWordChar(value[i])
    requires Capture(d) && Capture(f) && value[n..] == DefaultText(d) + FilterText(f)
    ensures WellFormed(EnvRef(value[..n], d, f)) && Render(EnvRef(value[..n], d, f)) == value
  {
    hide Render, DefaultText, FilterText;
    WordName(value, n);
    RenderSplit(value[..n], value[n..], d, f);
    assert value[..n] + value[n..] == value;
  }

  lemma WordName(value: string, n: nat)
    requires 0 < n <= |value| && forall i | 0 <= i < n :: IsWordChar(value[i])
    ensures value[..n] != [] && forall i | 0 <= i < |value[..n]| :: IsWordChar(value[..n][i])
  {
  }

  lemma RenderSplit(name: string, rest: string, d: Option<string>, f: Option<string>)
    requires rest == DefaultText(d) + FilterText(f)
    ensures Render(EnvRef(name, d, f)) == name + rest
  {
  }

  /** The text after a well-formed reference's name starts with `:`, `|` or nothing. */
  lemma RenderName(e: EnvRef)
    requires WellFormed(e)
    ensures WordPrefix(Render(e)) == |e.name|
    ensures Render(e)[..|e.name|] == e.name
    ensures Render(e)[|e.name|..] == DefaultText(e.default) + FilterText(e.filter)
  {
    var v := Render(e);
    var n := |e.name|;
    var rest := DefaultText(e.default) + FilterText(e.filter);
    assert v == e.name + rest;
    assert v[..n] == e.name && v[n..] == rest;
    if rest != [] {
      assert rest[0] == ':' || rest[0] == '|';
      assert v[n] == rest[0];
    }
    assert forall i | 0 <= i < n :: v[i] == e.name[i];
    WordPrefixAt(v, n);
  }

  /** The contract of WordPrefix determines its result. */
  lemma {:induction false} WordPrefixAt(s: string, n: nat)
    requires n <= |s| && (forall i | 0 <= i < n :: IsWordChar(s[i])) && (n < |s| ==> !IsWordChar(s[n]))
    ensures WordPrefix(s) == n
    decreases n
  {
    if n > 0 {
      assert forall i | 0 <= i < n - 1 :: s[1..][i] == s[i + 1];
      WordPrefixAt(s[1..], n - 1);
    }
  }

  /** The reference is matched exactly when it is in the grammar. */
  lemma ParseEnvExact(value: string)
    ensures ParseEnv(value).Some? <==> exists e :: WellFormed(e) && Render(e) == value
  {
    ParseEnvSound(value);
    if e :| WellFormed(e) && Render(e) == value {
      RenderName(e);
      ParseRestComplete(e.default, e.filter);
    }
  }

  /** A reference whose default holds no `|` is read back as written; with a
      `|` in the default the engine cuts the default at the first `|` that
      leaves a filter behind. */
  lemma ParseEnvRoundTrip(e: EnvRef)
    requires WellFormed(e)
    requires e.default.Some? ==> '|' !in e.default.value
    ensures ParseEnv(Render(e)) == Some(e)
  {
    RenderName(e);
    ParseRestComplete(e.default, e.filter);
  }

  /** The match of the echo pattern `/^(.*?)(?:[|](.+))?$/`: the echo string
      and the optional filter; `None` when the pattern fails. */
  function ParseEcho(value: string): (r: Option<(string, Option<string>)>)
    ensures r.Some? ==> var (echo, filter) := r.value;
              Dotted(echo) && value == echo + (match filter case None => "" case Some(f) => "|" + f)
  {
    match LazyCut(value, 0)
    case None => None
    case Some(k) =>
      assert value == value[..k] + value[k..];
      Some((value[..k], TailFilter(value[k..])))
  }

  /** Index of the first `|` that is not the last character, or `|s|`. */
  function FirstInnerPipe(s: string): (k: nat)
    ensures k <= |s|
    ensures k < |s| ==> s[k] == '|' && k + 1 < |s|
    ensures forall j | 0 <= j < k :: !(s[j] == '|' && j + 1 < |s|)
  {
    var i := IndexOf(s, '|');
    if i + 1 < |s| then i
    else |s|
  }

  /** The echo pattern matches exactly the strings without line terminators;
      it then cuts at the first `|` that is not the last character. */
  lemma ParseEchoCut(value: string)
    ensures ParseEcho(value).Some? <==> Dotted(value)
    ensures Dotted(value) ==>
              var k := FirstInnerPipe(value);
              ParseEcho(value) == Some((value[..k], if k == |value| then None else Some(value[k + 1..])))
  {
    if Dotted(value) {
      EchoCutsAtInnerPipe(value);
    } else {
      MatchIsDotted(value);
    }
  }

  lemma EchoCutsAtInnerPipe(value: string)
    requires Dotted(value)
    ensures LazyCut(value, 0) == Some(FirstInnerPipe(value))
  {
    var k := FirstInnerPipe(value);
    assert value[k..] == [] || (value[k..][0] == '|' && value[k..][1..] == value[k + 1..]);
    forall j | 0 <= j < k ensures !FilterTail(value[j..]) {
      assert value[j..][0] == value[j];
    }
    assert forall i | 0 <= i < k :: value[0..k][i] == value[i];
    LazyCutAt(value, 0, k);
  }

  /** The contract of LazyCut determines its result: the first position from
      `k` on, over text free of line terminators, where the continuation matches. */
  lemma {:induction false} LazyCutAt(t: string, k: nat, c: nat)
    requires k <= c <= |t| && Dotted(t[k..c]) && FilterTail(t[c..])
    requires forall j | k <= j < c :: !FilterTail(t[j..])
    ensures LazyCut(t, k) == Some(c)
    decreases c - k
  {
    if k < c {
      assert t[k] == t[k..c][0];
      assert t[k + 1..c] == t[k..c][1..];
      LazyCutAt(t, k + 1, c);
    }
  }

  /** Whatever the lazy group matches holds no line terminator. */
  lemma MatchIsDotted(value: string)
    ensures LazyCut(value, 0).Some? ==> Dotted(value)
  {
    if LazyCut(value, 0).Some? {
      var r := LazyCut(value, 0).value;
      forall i | 0 <= i < |value| ensures !IsLineTerminator(value[i]) {
        if i < r {
          assert value[0..r][i] == value[i];
        } else if i > r {
          assert value[r..][1..][i - r - 1] == value[i];
        }
      }
    }
  }

  /** `getValue`: a defined variable wins, even when it is the empty string;
      then a non-empty inline default; then `options.defaults[key]` when the
      defaults object exists; otherwise undefined. */
  function GetValue(env: map<string, Val>, defaults: Option<map<string, Val>>, key: string,
                    fallback: Option<string>): (r: Val)
    ensures key in env && env[key] != Undef ==> r == env[key]
    ensures r == Undef <==>
              && (key !in env || env[key] == Undef)
              && (fallback.None? || fallback.value == "")
              && (defaults.None? || key !in defaults.value || defaults.value[key] == Undef)
    ensures r != Undef ==>
              || (key in env && r == env[key])
              || (fallback.Some? && r == Str(fallback.value))
              || (defaults.Some? && key in defaults.value && r == defaults.value[key])
    ensures (key !in env || env[key] == Undef) && fallback.Some? && fallback.value != "" ==> r == Str(fallback.value)
    ensures ((key !in env || env[key] == Undef) && (fallback.None? || fallback.value == "")
             && defaults.Some? && key in defaults.value) ==> r == defaults.value[key]
  {
    if key in env && env[key] != Undef then env[key]
    else if fallback.Some? && fallback.value != "" then Str(fallback.value)
    else if defaults.Some? && key in defaults.value then defaults.value[key]
    else Undef
  }

  /** `envHandler(value)` of `env(options)`, with `processEnv` standing for
      `process.env`. */
  function EnvHandler(options: Options, processEnv: map<string, Val>, value: string)
    : (r: Result<Output, HandlerError>)
    ensures ParseEnv(value).None? ==> r == Err(InvalidEnv(value))
    ensures ParseEnv(value).Some? && ParseEnv(value).value.filter.None? ==> r.Ok?
  {
    match ParseEnv(value)
    case None => Err(InvalidEnv(value))
    case Some(ref) =>
      var resolved := GetValue(EnvOf(options, processEnv), options.defaults, ref.name, ref.default);
      match ref.filter
      case None => Ok(Value(resolved))
      case Some(spec) => RunFilter(FilterSet(options), spec, resolved, UnknownEnvFilter(value))
  }

  /** The environment `env(options)` reads: `options.env` when given. */
  function EnvOf(options: Options, processEnv: map<string, Val>): map<string, Val> {
    if options.env.Some? then options.env.value else processEnv
  }

  /** A filter run never reports a malformed reference: only an unknown name,
      or what the filter itself raises. */
  lemma RunFilterErrors(filters: map<string, Filter>, spec: string, input: Val, unknown: HandlerError)
    ensures RunFilter(filters, spec, input, unknown).Err? ==>
              RunFilter(filters, spec, input, unknown).error in {unknown, NotAString}
  {
  }

  /** The env handler rejects as malformed exactly the values outside the
      reference grammar. A reference written without `|` in its default
      yields the looked-up value, run through its filter when it has one. */
  lemma EnvHandlerCases(options: Options, processEnv: map<string, Val>, value: string, e: EnvRef)
    ensures EnvHandler(options, processEnv, value) == Err(InvalidEnv(value))
        <==> !exists e' :: WellFormed(e') && Render(e') == value
    ensures WellFormed(e) && (e.default.Some? ==> '|' !in e.default.value) && value == Render(e) ==>
              var resolved := GetValue(EnvOf(options, processEnv), options.defaults, e.name, e.default);
              EnvHandler(options, processEnv, value)
              == match e.filter
                 case None => Ok(Value(resolved))
                 case Some(spec) => RunFilter(FilterSet(options), spec, resolved, UnknownEnvFilter(value))
  {
    ParseEnvExact(value);
    match ParseEnv(value)
    case None =>
    case Some(ref) =>
      var resolved := GetValue(EnvOf(options, processEnv), options.defaults, ref.name, ref.default);
      if ref.filter.Some? {
        RunFilterErrors(FilterSet(options), ref.filter.value, resolved, UnknownEnvFilter(value));
      }
    if WellFormed(e) && (e.default.Some? ==> '|' !in e.default.value) && value == Render(e) {
      ParseEnvRoundTrip(e);
    }
  }

  /** `echoHandler(value)` of `echo(options)`. */
  function EchoHandler(options: Options, value: string): (r: Result<Output, HandlerError>)
    ensures ParseEcho(value).None? ==> r == Err(NoMatch)
    ensures r.Ok? ==> ParseEcho(value).Some? && ParseEcho(value).value.0 != []
                      && ParseEcho(value).value.0[|ParseEcho(value).value.0| - 1] != '|'
  {
    match ParseEcho(value)
    case None => Err(NoMatch)
    case Some((echo, filter)) =>
      if echo == [] || echo[|echo| - 1] == '|' then Err(InvalidEcho(value))
      else
        match filter
        case None => Ok(Value(Str(echo)))
        case Some(spec) => RunFilter(FilterSet(options), spec, Str(echo), UnknownEchoFilter(value))
  }

  /** A value holding a line terminator fails to match; otherwise the echo
      string is the text before the first `|` that is not the last character,
      an empty one or one ending in `|` is rejected, and with no filter the
      whole value comes back. */
  lemma EchoHandlerCases(options: Options, value: string)
    ensures !Dotted(value) ==> EchoHandler(options, value) == Err(NoMatch)
    ensures Dotted(value) ==>
              var k := FirstInnerPipe(value);
              var echo := value[..k];
              && ((echo == [] || echo[|echo| - 1] == '|') <==> EchoHandler(options, value) == Err(InvalidEcho(value)))
              && (k == |value| && echo != [] && echo[|echo| - 1] != '|' ==> EchoHandler(options, value) == Ok(Value(Str(value))))
              && (k < |value| && echo != [] && echo[|echo| - 1] != '|' ==>
                    EchoHandler(options, value)
                    == RunFilter(FilterSet(options), value[k + 1..], Str(echo), UnknownEchoFilter(value)))
  {
    hide ParseEcho, LazyCut;
    ParseEchoCut(value);
    if Dotted(value) {
      assert value[..|value|] == value;
    }
  }

  /** An echo string free of `|`, written with or without a filter, is
      echoed, or run through that filter, as written. */
  lemma EchoRoundTrip(options: Options, echo: string, filter: Option<string>)
    requires echo != [] && '|' !in echo && Dotted(echo) && Capture(filter)
    ensures EchoHandler(options, echo + FilterText(filter))
         == match filter
            case None => Ok(Value(Str(echo)))
            case Some(spec) => RunFilter(FilterSet(options), spec, Str(echo), UnknownEchoFilter(echo + FilterText(filter)))
  {
    hide EchoHandler, ParseEcho, LazyCut, RunFilter, IndexOf, Dotted, Split, Trim;
    var value := echo + FilterText(filter);
    var n := |echo|;
    assert value[..n] == echo;
    if filter.Some? {
      assert value[n] == '|' && value[n + 1..] == filter.value;
    } else {
      assert value == echo;
    }
    IndexOfAt(value, '|', n);
    FilterTextDotted(filter);
    DottedAppend(echo, FilterText(filter));
    EchoHandlerCases(options, value);
  }

  lemma FilterTextDotted(f: Option<string>)
    requires Capture(f)
    ensures Dotted(FilterText(f))
  {
    if f.Some? {
      DottedAppend("|", f.value);
    }
  }

  lemma DottedAppend(a: string, b: string)
    requires Dotted(a) && Dotted(b)
    ensures Dotted(a + b)
  {
    forall i | 0 <= i < |a + b| ensures !IsLineTerminator((a + b)[i]) {
      if i >= |a| {
        assert (a + b)[i] == b[i - |a|];
      }
    }
  }

  // ---------------------------------------------------------------------
  // toRegexp
  // ---------------------------------------------------------------------

  /** A regular-expression flag letter. */
  predicate IsFlag(c: char) {
    c == 'm' || c == 'i' || c == 'g' || c == 'u' || c == 'y' || c == 's'
  }

  /** `value` is `/P/F` as `/^\/(.*)\/([miguys]+)?$/` reads it. */
  predicate RegexpShape(value: string, pattern: string, flags: string) {
    && value == "/" + pattern + "/" + flags
    && Dotted(pattern)
    && forall i | 0 <= i < |flags| :: IsFlag(flags[i])
  }

  /** The match of `/^\/(.*)\/([miguys]+)?$/`: the pattern runs to the last
      `/`, and only flag letters may follow it. */
  function SplitRegexp(value: string): (r: Option<(string, string)>)
    ensures r.Some? ==> RegexpShape(value, r.value.0, r.value.1)
  {
    if |value| >= 2 && value[0] == '/' then
      var k := LastIndexOf(value, '/');
      if k >= 1 && Dotted(value[1..k]) && (forall i | k + 1 <= i < |value| :: IsFlag(value[i])) then
        assert value == "/" + value[1..k] + "/" + value[k + 1..];
        Some((value[1..k], value[k + 1..]))
      else None
    else None
  }

  /** A value has at most one `/P/F` reading, and the split finds it. */
  lemma SplitRegexpExact(value: string, pattern: string, flags: string)
    ensures SplitRegexp(value) == Some((pattern, flags)) <==> RegexpShape(value, pattern, flags)
  {
    if RegexpShape(value, pattern, flags) {
      var k := |pattern| + 1;
      assert value[k] == '/';
      assert forall j | k < j < |value| :: value[j] == flags[j - k - 1];
      assert LastIndexOf(value, '/') == k;
      assert value[1..k] == pattern;
      assert value[k + 1..] == flags;
    }
  }

  /** `toRegexp(value, params)` up to the construction of the RegExp: the
      pattern and flags of `/P/F`, the flags defaulting to `params`; any other
      value is a pattern as a whole, with `params` as flags. */
  function ToRegexp(value: string, params: Val): (r: Output)
    ensures r.Regexp?
    ensures forall p, f | RegexpShape(value, p, f) ::
              r == Regexp(p, if f == "" then params else Str(f))
    ensures (forall p, f :: !RegexpShape(value, p, f)) ==> r == Regexp(value, params)
  {
    match SplitRegexp(value)
    case Some((pattern, flags)) =>
      assert forall p, f | RegexpShape(value, p, f) :: p == pattern && f == flags by {
        forall p, f | RegexpShape(value, p, f) ensures p == pattern && f == flags {
          SplitRegexpExact(value, p, f);
        }
      }
      Regexp(pattern, if flags == "" then params else Str(flags))
    case None =>
      assert forall p, f :: !RegexpShape(value, p, f) by {
        forall p, f ensures !RegexpShape(value, p, f) {
          SplitRegexpExact(value, p, f);
        }
      }
      Regexp(value, params)
  }
}
