/**
  Command-line lookups the Epic launcher's arguments are read with. The
  process's argument array is a parameter; the warnings the lookups log are
  not modelled.
 */
module EosEnv {
  import opened Interop

  predicate StartsWith(s: string, prefix: string) {
    |prefix| <= |s| && s[..|prefix|] == prefix
  }

  /** The prefix actually searched for: the name with a leading `-` added when missing. */
  function SearchPrefix(startsWith: string): (p: string)
    ensures StartsWith(p, "-")
    ensures |p| == |startsWith| || |p| == |startsWith| + 1
    ensures p[|p| - |startsWith|..] == startsWith
    ensures |p| == |startsWith| <==> StartsWith(startsWith, "-")
  {
    if StartsWith(startsWith, "-") then startsWith else "-" + startsWith
  }

  /** Adding the dash is idempotent: a name that already has it is searched for as given. */
  lemma SearchPrefixIdempotent(startsWith: string)
    ensures SearchPrefix(SearchPrefix(startsWith)) == SearchPrefix(startsWith)
  {
  }

  /** The index of the first argument at or after `from` that starts with `prefix`. */
  function FirstWithPrefix(args: seq<string>, prefix: string, from: nat): (r: Option<nat>)
    requires from <= |args|
    ensures r.Some? ==> from <= r.value < |args| && StartsWith(args[r.value], prefix)
    ensures r.Some? ==> forall j | from <= j < r.value :: !StartsWith(args[j], prefix)
    ensures r.None? ==> forall j | from <= j < |args| :: !StartsWith(args[j], prefix)
    decreases |args| - from
  {
    if from == |args| then None
    else if StartsWith(args[from], prefix) then Some(from)
    else FirstWithPrefix(args, prefix, from + 1)
  }

  /**
    `GetCommandLineArg`: the first argument that starts with the search
    prefix, or null when none does.
   */
  function GetCommandLineArg(args: seq<string>, startsWith: string): (r: Option<string>)
    ensures r.Some? ==> StartsWith(r.value, SearchPrefix(startsWith)) && r.value in args
    ensures r.None? <==> forall j | 0 <= j < |args| :: !StartsWith(args[j], SearchPrefix(startsWith))
    ensures r.Some? ==> exists i | 0 <= i < |args| ::
      && args[i] == r.value
      && forall j | 0 <= j < i :: !StartsWith(args[j], SearchPrefix(startsWith))
  {
    match FirstWithPrefix(args, SearchPrefix(startsWith), 0)
    case None => None
    case Some(i) => Some(args[i])
  }

  /** The search loop as the launcher helper runs it: the lowest matching index wins. */
  method FindCommandLineArg(args: seq<string>, startsWith: string) returns (r: Option<string>)
    ensures r == GetCommandLineArg(args, startsWith)
  {
    var fullStartsWith := startsWith;
    if !StartsWith(startsWith, "-") {
      fullStartsWith := "-" + startsWith;
    }
    var i := 0;
    while i < |args|
      invariant 0 <= i <= |args|
      invariant FirstWithPrefix(args, fullStartsWith, 0) == FirstWithPrefix(args, fullStartsWith, i)
    {
      if StartsWith(args[i], fullStartsWith) {
        return Some(args[i]);
      }
      i := i + 1;
    }
    return None;
  }

  /** The index of the first occurrence of `c`, if any. */
  function IndexOf(s: string, c: char): (r: Option<nat>)
    ensures r.Some? ==> r.value < |s| && s[r.value] == c && c !in s[..r.value]
    ensures r.None? <==> c !in s
  {
    if |s| == 0 then None
    else if s[0] == c then Some(0)
    else
      match IndexOf(s[1..], c)
      case None => None
      case Some(i) =>
        assert s[..i + 1] == [s[0]] + s[1..][..i];
        Some(i + 1)
  }

  /**
    `Split` on one separator with at most two parts: the whole string when
    the separator is absent, else the text before its first occurrence and
    everything after it.
   */
  function SplitOnce(s: string, separator: char): (parts: seq<string>)
    ensures |parts| == 1 || |parts| == 2
    ensures |parts| == 1 <==> separator !in s
    ensures |parts| == 1 ==> parts[0] == s
    ensures |parts| == 2 ==> parts[0] + [separator] + parts[1] == s && separator !in parts[0]
  {
    match IndexOf(s, separator)
    case None => [s]
    case Some(i) =>
      assert s[..i] + [separator] + s[i + 1..] == s;
      [s[..i], s[i + 1..]]
  }

  /**
    `GetCommandLineArgValue`: what follows the first `=` of the first
    matching argument; null when there is no such argument or it has no `=`.
   */
  function GetCommandLineArgValue(args: seq<string>, argName: string): (r: Option<string>)
    ensures r.Some? <==> GetCommandLineArg(args, argName).Some? && '=' in GetCommandLineArg(args, argName).value
    ensures r.Some? ==>
      var full := GetCommandLineArg(args, argName).value;
      && |r.value| < |full|
      && var key := full[..|full| - |r.value| - 1];
      && full == key + "=" + r.value
      && '=' !in key
  {
    match GetCommandLineArg(args, argName)
    case None => None
    case Some(fullVal) =>
      var valSplit := SplitOnce(fullVal, '=');
      if |valSplit| > 1 then
        assert fullVal[..|fullVal| - |valSplit[1]| - 1] == valSplit[0];
        Some(valSplit[1])
      else
        None
  }

  /** `GetSandboxID`: the value of the `-epicsandboxid` argument. */
  function GetSandboxId(args: seq<string>): (r: Option<string>)
    ensures r == GetCommandLineArgValue(args, "epicsandboxid")
  {
    GetCommandLineArgValue(args, "epicsandboxid")
  }

  /**
    `GetExchangeCodeToken`: the `-AUTH_PASSWORD` value, possibly null, when
    the `-AUTH_TYPE` value is exactly `exchangecode`; null otherwise.
   */
  function GetExchangeCodeToken(args: seq<string>): (r: Option<string>)
    ensures GetCommandLineArgValue(args, "AUTH_TYPE") == Some("exchangecode") ==>
      r == GetCommandLineArgValue(args, "AUTH_PASSWORD")
    ensures GetCommandLineArgValue(args, "AUTH_TYPE") != Some("exchangecode") ==> r.None?
  {
    var authTypeCode := GetCommandLineArgValue(args, "AUTH_TYPE");
    if authTypeCode.Some? && authTypeCode.value == "exchangecode" then
      GetCommandLineArgValue(args, "AUTH_PASSWORD")
    else
      None
  }

  // ---------------------------------------------------------------------
  // Properties

  /** The first argument carrying the prefix is the one returned. */
  lemma FirstMatchIsReturned(args: seq<string>, startsWith: string, i: nat)
    requires i < |args| && StartsWith(args[i], SearchPrefix(startsWith))
    requires forall j | 0 <= j < i :: !StartsWith(args[j], SearchPrefix(startsWith))
    ensures GetCommandLineArg(args, startsWith) == Some(args[i])
  {
    var r := FirstWithPrefix(args, SearchPrefix(startsWith), 0);
    assert r.Some?;
    assert !(r.value < i) && !(i < r.value);
  }

  /** The first `=` is found wherever the text before it has none. */
  lemma IndexOfFirst(s: string, c: char, i: nat)
    requires i < |s| && s[i] == c && c !in s[..i]
    ensures IndexOf(s, c) == Some(i)
  {
    assert c in s by { assert s[i] == c; }
  }

  /**
    The converse of the value contract: when the first matching argument is
    a key without `=`, then `=`, then any text (which may hold more `=`),
    that text is the value.
   */
  lemma ValueIsTextAfterFirstEquals(args: seq<string>, argName: string, key: string, value: string)
    requires GetCommandLineArg(args, argName) == Some(key + "=" + value)
    requires '=' !in key
    ensures GetCommandLineArgValue(args, argName) == Some(value)
  {
    var full := key + "=" + value;
    assert full[..|key|] == key;
    IndexOfFirst(full, '=', |key|);
    assert full[|key| + 1..] == value;
  }

  /** A name that differs from the prefix at some position does not match it. */
  lemma NoMatchAt(s: string, prefix: string, k: nat)
    requires k < |prefix| && k < |s| && s[k] != prefix[k]
    ensures !StartsWith(s, prefix)
  {
  }

  /** A name that does not start with a dash is searched for with one in front. */
  lemma DashAdded(name: string)
    requires |name| > 0 && name[0] != '-'
    ensures SearchPrefix(name) == "-" + name
  {
    NoMatchAt(name, "-", 0);
  }

  /** The arguments the launcher passes when it hands over an exchange code. */
  const LauncherArgs: seq<string> := ["-AUTH_LOGIN=unused", "-AUTH_PASSWORD=c0de", "-AUTH_TYPE=exchangecode"]

  lemma LauncherAuthType()
    ensures GetCommandLineArgValue(LauncherArgs, "AUTH_TYPE") == Some("exchangecode")
  {
    var args := LauncherArgs;
    NoMatchAt(args[0], "-AUTH_TYPE", 6);
    NoMatchAt(args[1], "-AUTH_TYPE", 6);
    AuthTypeOfFirstArgument(args, 2, "exchangecode");
  }

  lemma LauncherPassword()
    ensures GetCommandLineArgValue(LauncherArgs, "AUTH_PASSWORD") == Some("c0de")
  {
    var args := LauncherArgs;
    NoMatchAt(args[0], "-AUTH_PASSWORD", 6);
    PasswordOfFirstArgument(args, 1, "c0de");
  }

  /** A launch with an exchange code, in the launcher's argument order, yields the code. */
  lemma LauncherArgumentsYieldToken()
    ensures GetExchangeCodeToken(LauncherArgs) == Some("c0de")
  {
    LauncherAuthType();
    LauncherPassword();
  }

  /**
    The sandbox id is the text after `-epicsandboxid=` in the first argument
    that starts with `-epicsandboxid`.
   */
  lemma SandboxIdFromFirstArgument(args: seq<string>, i: nat, value: string)
    requires i < |args| && args[i] == "-epicsandboxid=" + value
    requires forall j | 0 <= j < i :: !StartsWith(args[j], "-epicsandboxid")
    ensures GetSandboxId(args) == Some(value)
  {
    DashAdded("epicsandboxid");
    assert "-" + "epicsandboxid" == "-epicsandboxid";
    assert args[i] == "-epicsandboxid" + "=" + value;
    assert args[i][..14] == "-epicsandboxid";
    FirstMatchIsReturned(args, "epicsandboxid", i);
    ValueIsTextAfterFirstEquals(args, "epicsandboxid", "-epicsandboxid", value);
  }

  /** The value of the first argument that is the dashed name, `=`, then any text. */
  lemma ValueOfFirstArgument(args: seq<string>, name: string, i: nat, value: string)
    requires |name| > 0 && name[0] != '-' && '=' !in name
    requires i < |args| && args[i] == "-" + name + "=" + value
    requires forall j | 0 <= j < i :: !StartsWith(args[j], "-" + name)
    ensures GetCommandLineArgValue(args, name) == Some(value)
  {
    DashAdded(name);
    assert args[i][..|name| + 1] == "-" + name;
    FirstMatchIsReturned(args, name, i);
    assert '=' !in "-" + name by {
      assert forall k | 1 <= k < |name| + 1 :: ("-" + name)[k] == name[k - 1];
    }
    ValueIsTextAfterFirstEquals(args, name, "-" + name, value);
  }

  /**
    Whatever else the arguments hold: when the first `-AUTH_TYPE` argument is
    `-AUTH_TYPE=exchangecode` and the first `-AUTH_PASSWORD` argument is
    `-AUTH_PASSWORD=` followed by `v`, the token is `v`.
   */
  lemma ExchangeCodeYieldsPassword(args: seq<string>, i: nat, j: nat, v: string)
    requires i < |args| && args[i] == "-AUTH_TYPE=exchangecode"
    requires forall k | 0 <= k < i :: !StartsWith(args[k], "-AUTH_TYPE")
    requires j < |args| && args[j] == "-AUTH_PASSWORD=" + v
    requires forall k | 0 <= k < j :: !StartsWith(args[k], "-AUTH_PASSWORD")
    ensures GetExchangeCodeToken(args) == Some(v)
  {
    AuthTypeOfFirstArgument(args, i, "exchangecode");
    PasswordOfFirstArgument(args, j, v);
  }

  lemma AuthTypeOfFirstArgument(args: seq<string>, i: nat, t: string)
    requires i < |args| && args[i] == "-AUTH_TYPE=" + t
    requires forall k | 0 <= k < i :: !StartsWith(args[k], "-AUTH_TYPE")
    ensures GetCommandLineArgValue(args, "AUTH_TYPE") == Some(t)
  {
    assert "-AUTH_TYPE=" + t == "-" + "AUTH_TYPE" + "=" + t;
    ValueOfFirstArgument(args, "AUTH_TYPE", i, t);
  }

  lemma PasswordOfFirstArgument(args: seq<string>, j: nat, v: string)
    requires j < |args| && args[j] == "-AUTH_PASSWORD=" + v
    requires forall k | 0 <= k < j :: !StartsWith(args[k], "-AUTH_PASSWORD")
    ensures GetCommandLineArgValue(args, "AUTH_PASSWORD") == Some(v)
  {
    assert "-AUTH_PASSWORD=" + v == "-" + "AUTH_PASSWORD" + "=" + v;
    ValueOfFirstArgument(args, "AUTH_PASSWORD", j, v);
  }

  /**
    Whatever else the arguments hold: when the first `-AUTH_TYPE` argument
    carries any value other than `exchangecode`, there is no token.
   */
  lemma OtherAuthTypeYieldsNull(args: seq<string>, i: nat, t: string)
    requires t != "exchangecode"
    requires i < |args| && args[i] == "-AUTH_TYPE=" + t
    requires forall k | 0 <= k < i :: !StartsWith(args[k], "-AUTH_TYPE")
    ensures GetExchangeCodeToken(args).None?
  {
    AuthTypeOfFirstArgument(args, i, t);
  }

  /** Any other auth type gives no token, even when a password is present. */
  lemma OtherAuthTypeYieldsNoToken()
    ensures GetExchangeCodeToken(["-AUTH_PASSWORD=c0de", "-AUTH_TYPE=password"]).None?
  {
    var args := ["-AUTH_PASSWORD=c0de", "-AUTH_TYPE=password"];
    DashAdded("AUTH_TYPE");
    assert "-" + "AUTH_TYPE" == "-AUTH_TYPE";
    NoMatchAt(args[0], "-AUTH_TYPE", 6);
    assert args[1] == "-AUTH_TYPE" + "=" + "password";
    assert args[1][..10] == "-AUTH_TYPE";
    FirstMatchIsReturned(args, "AUTH_TYPE", 1);
    ValueIsTextAfterFirstEquals(args, "AUTH_TYPE", "-AUTH_TYPE", "password");
  }

  /**
    Matching is by prefix, not by name: an argument whose name merely starts
    with the searched name is taken when it comes first.
   */
  lemma LongerNameMatchesByPrefix()
    ensures GetCommandLineArgValue(["-AUTH_TYPEX=other", "-AUTH_TYPE=exchangecode"], "AUTH_TYPE") == Some("other")
  {
    var args := ["-AUTH_TYPEX=other", "-AUTH_TYPE=exchangecode"];
    DashAdded("AUTH_TYPE");
    assert "-" + "AUTH_TYPE" == "-AUTH_TYPE";
    assert args[0][..10] == "-AUTH_TYPE";
    assert args[0] == "-AUTH_TYPEX" + "=" + "other";
    FirstMatchIsReturned(args, "AUTH_TYPE", 0);
    ValueIsTextAfterFirstEquals(args, "AUTH_TYPE", "-AUTH_TYPEX", "other");
  }
}
