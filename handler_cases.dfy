/**
 * The handler test cases of test/handlers.env.test.js,
 * test/handlers.echo.test.js and test/handlers.regexp.test.js, replayed
 * against the model with the default options.
 */
module HandlerCases {
  import opened Basics
  import opened Text
  import opened Handlers

  /** `env()` and `echo()` called without options. */
  const NoOptions := Options(None, Undef, Undef, None, None)

  // ---------------------------------------------------------------------
  // env
  // ---------------------------------------------------------------------

  /** Without options, a reference in the grammar (no `|` in its default)
      reads the variable and runs the default filters. */
  lemma RefCase(env: map<string, Val>, e: EnvRef, value: string)
    requires WellFormed(e) && (e.default.Some? ==> '|' !in e.default.value) && Render(e) == value
    ensures var resolved := GetValue(env, None, e.name, e.default);
            EnvHandler(NoOptions, env, value)
            == match e.filter
               case None => Ok(Value(resolved))
               case Some(spec) => RunFilter(FilterSet(NoOptions), spec, resolved, UnknownEnvFilter(value))
  {
    EnvHandlerCases(NoOptions, env, value, e);
  }

  /** Without options, a value outside the grammar is malformed. */
  lemma RejectedCase(env: map<string, Val>, value: string)
    requires ParseEnv(value).None?
    ensures EnvHandler(NoOptions, env, value) == Err(InvalidEnv(value))
  {
  }

  /** A missing default is malformed. */
  lemma EnvMissingDefault(env: map<string, Val>)
    ensures EnvHandler(NoOptions, env, "TEST_SAMPLE:-") == Err(InvalidEnv("TEST_SAMPLE:-"))
  {
    hide EnvHandler, ParseRest, WordPrefix;
    SampleName("TEST_SAMPLE:-", ":-");
    NoRest(":-");
    RejectedCase(env, "TEST_SAMPLE:-");
  }

  /** A missing filter is malformed. */
  lemma EnvMissingFilter(env: map<string, Val>)
    ensures EnvHandler(NoOptions, env, "TEST_SAMPLE|") == Err(InvalidEnv("TEST_SAMPLE|"))
  {
    hide EnvHandler, ParseRest, WordPrefix;
    SampleName("TEST_SAMPLE|", "|");
    NoRest("|");
    RejectedCase(env, "TEST_SAMPLE|");
  }

  /** `TEST_SAMPLE` followed by `rest`, which does not go on with a word character. */
  lemma SampleName(value: string, rest: string)
    requires value == "TEST_SAMPLE" + rest && rest != [] && !IsWordChar(rest[0])
    ensures WordPrefix(value) == 11 && value[11..] == rest
  {
    assert value[11] == rest[0];
    assert forall i | 0 <= i < 11 :: value[i] == "TEST_SAMPLE"[i];
    WordPrefixAt(value, 11);
  }

  /** Texts after a name that neither start a filter nor a non-empty default. */
  lemma NoRest(rest: string)
    requires rest == ":-" || rest == "|" || rest == "-SAMPLE"
    ensures ParseRest(rest) == None
  {
    if rest == ":-" {
      assert rest[2..] == [];
    }
  }

  /** The well-formed references of the env test cases and their text. */
  lemma KikouRef()
    ensures WellFormed(EnvRef("TEST_SAMPLE", None, Some("kikou")))
    ensures Render(EnvRef("TEST_SAMPLE", None, Some("kikou"))) == "TEST_SAMPLE|kikou"
  {
  }

  lemma UnsetRef()
    ensures WellFormed(EnvRef("UNSET", Some("true"), Some("b"))) && '|' !in "true"
    ensures Render(EnvRef("UNSET", Some("true"), Some("b"))) == "UNSET:-true|b"
  {
  }

  lemma EmptyRef()
    ensures WellFormed(EnvRef("EMPTY", Some("fallback"), None)) && '|' !in "fallback"
    ensures Render(EnvRef("EMPTY", Some("fallback"), None)) == "EMPTY:-fallback"
  {
  }

  /** A `-` in the name is malformed. */
  lemma EnvDashedName(env: map<string, Val>)
    ensures EnvHandler(NoOptions, env, "TEST-SAMPLE") == Err(InvalidEnv("TEST-SAMPLE"))
  {
    var v := "TEST-SAMPLE";
    assert WordPrefix(v) == 4 && v[4..] == "-SAMPLE" by {
      WordPrefixAt(v, 4);
    }
    NoRest("-SAMPLE");
    RejectedCase(env, v);
  }

  /** A well-formed reference whose filter is not a known name. */
  lemma EnvUnknownFilter(env: map<string, Val>)
    ensures EnvHandler(NoOptions, env, "TEST_SAMPLE|kikou") == Err(UnknownEnvFilter("TEST_SAMPLE|kikou"))
  {
    var e := EnvRef("TEST_SAMPLE", None, Some("kikou"));
    KikouRef();
    RefCase(env, e, "TEST_SAMPLE|kikou");
    UnknownName("kikou");
  }

  /** An unset variable takes its inline default, which then goes through `b`. */
  lemma EnvDefaultThenFilter(env: map<string, Val>)
    requires "UNSET" !in env
    ensures EnvHandler(NoOptions, env, "UNSET:-true|b") == Ok(Value(Bool(true)))
  {
    hide EnvHandler, WellFormed, Render, RunFilter, ParseEnv, Split, Trim;
    var e := EnvRef("UNSET", Some("true"), Some("b"));
    UnsetRef();
    RefCase(env, e, "UNSET:-true|b");
    assert GetValue(env, None, "UNSET", Some("true")) == Str("true");
    KnownName("b");
  }

  /** A variable set to the empty string wins over the inline default. */
  lemma EnvEmptyValueWins(env: map<string, Val>)
    requires "EMPTY" in env && env["EMPTY"] == Str("")
    ensures EnvHandler(NoOptions, env, "EMPTY:-fallback") == Ok(Value(Str("")))
  {
    var e := EnvRef("EMPTY", Some("fallback"), None);
    EmptyRef();
    RefCase(env, e, "EMPTY:-fallback");
  }

  // ---------------------------------------------------------------------
  // Filter names
  // ---------------------------------------------------------------------

  /** A bare name that is a default filter runs that filter. */
  lemma KnownName(spec: string)
    requires spec == "b" || spec == "!b"
    ensures forall input, unknown :: RunFilter(FilterSet(NoOptions), spec, input, unknown) == Apply(DefaultFilters[spec], input, [])
  {
    SpecIsName(spec);
    assert [spec][1..] == [];
  }

  /** A bare name that is not a default filter is reported unknown. */
  lemma UnknownName(spec: string)
    requires spec == "kikou" || spec == "a"
    ensures forall input, unknown :: RunFilter(FilterSet(NoOptions), spec, input, unknown) == Err(unknown)
  {
    SpecIsName(spec);
    assert spec !in DefaultFilters;
  }

  /** A filter spec that is a bare name, with no space or `:`, names itself. */
  lemma SpecIsName(spec: string)
    requires spec != [] && ':' !in spec && !IsJsSpace(spec[0]) && !IsJsSpace(spec[|spec| - 1])
    ensures Split(Trim(spec), ':') == [spec]
  {
    TrimKeeps(spec);
    SplitJoin([spec], ':');
  }

  // ---------------------------------------------------------------------
  // echo
  // ---------------------------------------------------------------------

  /** The echo test values hold no line terminator. */
  lemma DottedEchoes()
    ensures Dotted("|no-string") && Dotted("oups trailing pipe|") && Dotted("coucou") && Dotted("test") && Dotted("false")
    ensures Capture(Some("a")) && Capture(Some("!b"))
  {
  }

  /** The first inner `|` of `|no-string` opens it. */
  lemma LeadingPipeEcho()
    ensures FirstInnerPipe("|no-string") == 0
  {
    IndexOfAt("|no-string", '|', 0);
  }

  /** `oups trailing pipe|` has no inner `|`: its only one is its last character. */
  lemma TrailingPipeEcho()
    ensures FirstInnerPipe("oups trailing pipe|") == 19
  {
    var v := "oups trailing pipe|";
    assert '|' !in v[..18];
    IndexOfAt(v, '|', 18);
  }

  /** An empty echo string is rejected. */
  lemma EchoEmpty()
    ensures EchoHandler(NoOptions, "|no-string") == Err(InvalidEcho("|no-string"))
  {
    var v := "|no-string";
    DottedEchoes();
    LeadingPipeEcho();
    EchoHandlerCases(NoOptions, v);
  }

  /** An echo string ending with `|` is rejected. */
  lemma EchoTrailingPipe()
    ensures EchoHandler(NoOptions, "oups trailing pipe|") == Err(InvalidEcho("oups trailing pipe|"))
  {
    hide EchoHandler, FirstInnerPipe, Dotted;
    var v := "oups trailing pipe|";
    DottedEchoes();
    TrailingPipeEcho();
    assert v[..19] == v;
    EchoHandlerCases(NoOptions, v);
  }

  /** An unknown filter is rejected. */
  lemma EchoUnknownFilter()
    ensures EchoHandler(NoOptions, "coucou|a") == Err(UnknownEchoFilter("coucou|a"))
  {
    hide EchoHandler, RunFilter, Dotted, ParseEcho, FilterSet, Split, Trim;
    assert "coucou|a" == "coucou" + FilterText(Some("a")) && '|' !in "coucou";
    DottedEchoes();
    EchoRoundTrip(NoOptions, "coucou", Some("a"));
    UnknownName("a");
  }

  /** A plain string echoes itself. */
  lemma EchoPlain()
    ensures EchoHandler(NoOptions, "test") == Ok(Value(Str("test")))
  {
    assert "test" == "test" + FilterText(None) && '|' !in "test";
    DottedEchoes();
    EchoRoundTrip(NoOptions, "test", None);
  }

  /** `!b` of `'false'` is true. */
  lemma EchoNotFlag()
    ensures EchoHandler(NoOptions, "false|!b") == Ok(Value(Bool(true)))
  {
    hide EchoHandler, RunFilter, Dotted, ParseEcho, FilterSet, Split, Trim, Apply;
    assert "false|!b" == "false" + FilterText(Some("!b")) && '|' !in "false";
    DottedEchoes();
    EchoRoundTrip(NoOptions, "false", Some("!b"));
    KnownName("!b");
    NotFlagOfFalse();
  }

  /** `!b` of the string `'false'` is true. */
  lemma NotFlagOfFalse()
    ensures Apply(DefaultFilters["!b"], Str("false"), []) == Ok(Value(Bool(true)))
  {
  }

  // ---------------------------------------------------------------------
  // toRegexp
  // ---------------------------------------------------------------------

  /** Only `/P/F` with flag letters after the last `/` is split. */
  lemma RegexpCases()
    ensures ToRegexp("/.*", Undef) == Regexp("/.*", Undef)
    ensures ToRegexp(".*/", Undef) == Regexp(".*/", Undef)
    ensures ToRegexp("/.*/", Undef) == Regexp(".*", Undef)
    ensures ToRegexp("/.*/gi", Undef) == Regexp(".*", Str("gi"))
  {
    assert RegexpShape("/.*/", ".*", "");
    assert RegexpShape("/.*/gi", ".*", "gi");
    forall p, f ensures !RegexpShape("/.*", p, f) {
      SplitRegexpExact("/.*", p, f);
    }
    forall p, f ensures !RegexpShape(".*/", p, f) {
      SplitRegexpExact(".*/", p, f);
    }
  }
}
