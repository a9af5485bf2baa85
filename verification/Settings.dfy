/** `HomePrinterRelaySettings`: where the relay writes its files and which
    port it listens on, read from the command line first, then from the
    process environment. The environment is a map from variable name to
    value; a missing variable and the source's `null` are `None`. */
module Settings {
  import opened Wrappers
  import opened Strings
  import opened Decimal

  /** The initial value of the `SmtpPort` property. */
  const DefaultSmtpPort: int := 25

  datatype Settings = Settings(filePath: Option<string>, smtpPort: int)

  type Environment = map<string, string>

  /** The command-line flag naming a setting. */
  function Flag(name: string): (r: string)
    ensures |r| == |name| + 2 && StartsWith(r, "--")
  {
    "--" + name
  }

  /** The environment variable naming a setting. */
  function VariableName(name: string): (r: string)
    ensures |r| == |name| + 5 && StartsWith(r, "SMTP_")
  {
    "SMTP_" + ToUpper(name)
  }

  /** The first index at or after `i` whose argument is the flag, ignoring
      case, among the arguments that have one after them. */
  function FlagIndex(args: seq<string>, flag: string, i: nat): (r: Option<nat>)
    ensures r.Some? ==> i <= r.value < |args| - 1 && EqualsIgnoreCase(args[r.value], flag)
    ensures r.Some? ==> forall j :: i <= j < r.value ==> !EqualsIgnoreCase(args[j], flag)
    ensures r.None? ==> forall j :: i <= j < |args| - 1 ==> !EqualsIgnoreCase(args[j], flag)
    decreases |args| - i
  {
    if i + 1 >= |args| then None
    else if EqualsIgnoreCase(args[i], flag) then Some(i)
    else FlagIndex(args, flag, i + 1)
  }

  /** The environment's value for a setting, unless it is missing or empty. */
  function FromEnvironment(env: Environment, name: string): (r: Option<string>)
    ensures r.Some? ==> r.value != "" && VariableName(name) in env && env[VariableName(name)] == r.value
    ensures r.None? ==> VariableName(name) !in env || env[VariableName(name)] == ""
  {
    var key := VariableName(name);
    if key in env && env[key] != "" then Some(env[key]) else None
  }

  /** What `GetSetting` returns: the argument after the first flag, else the
      environment's non-empty value, else `null`. */
  function Setting(args: seq<string>, env: Environment, name: string): (r: Option<string>)
    ensures r.Some? ==> (exists i :: 1 <= i < |args| && r.value == args[i]) || r == FromEnvironment(env, name)
  {
    match FlagIndex(args, Flag(name), 0)
    case Some(i) => Some(args[i + 1])
    case None => FromEnvironment(env, name)
  }

  /** `GetSetting`: the loop over the arguments, then the fallbacks. */
  method GetSetting(args: seq<string>, env: Environment, name: string) returns (r: Option<string>)
    ensures r == Setting(args, env, name)
  {
    var flag := Flag(name);
    var i := 0;
    while i < |args| - 1
      invariant 0 <= i <= |args|
      invariant FlagIndex(args, flag, i) == FlagIndex(args, flag, 0)
    {
      if EqualsIgnoreCase(args[i], flag) {
        return Some(args[i + 1]);
      }
      i := i + 1;
    }
    var key := VariableName(name);
    if key in env && env[key] != "" {
      return Some(env[key]);
    }
    return None;
  }

  /** `GetSettingInt`: the setting parsed as a 32-bit integer, 0 when it is
      missing or does not parse. */
  function GetSettingInt(args: seq<string>, env: Environment, name: string): (r: int)
    ensures IsInt32(r)
    ensures TryParseInt(Setting(args, env, name)).Some? ==> r == TryParseInt(Setting(args, env, name)).value
    ensures TryParseInt(Setting(args, env, name)).None? ==> r == 0
  {
    match TryParseInt(Setting(args, env, name))
    case Some(v) => v
    case None => 0
  }

  /** `LoadSettings`: the output directory and the port. */
  function LoadSettings(args: seq<string>, env: Environment): (r: Settings)
    ensures IsInt32(r.smtpPort)
    ensures r.filePath == Setting(args, env, "OutputPath")
    ensures r.smtpPort == GetSettingInt(args, env, "SmtpPort")
  {
    Settings(Setting(args, env, "OutputPath"), GetSettingInt(args, env, "SmtpPort"))
  }

  /** The first matching flag wins, whatever follows it and whatever the
      environment holds. */
  lemma {:induction false} FirstFlagWins(args: seq<string>, env: Environment, name: string, i: nat)
    requires i < |args| - 1 && EqualsIgnoreCase(args[i], Flag(name))
    requires forall j :: 0 <= j < i ==> !EqualsIgnoreCase(args[j], Flag(name))
    ensures Setting(args, env, name) == Some(args[i + 1])
  {
    FlagFoundAt(args, Flag(name), 0, i);
  }

  lemma {:induction false} FlagFoundAt(args: seq<string>, flag: string, k: nat, i: nat)
    requires k <= i < |args| - 1 && EqualsIgnoreCase(args[i], flag)
    requires forall j :: k <= j < i ==> !EqualsIgnoreCase(args[j], flag)
    ensures FlagIndex(args, flag, k) == Some(i)
    decreases i - k
  {
    if k < i {
      FlagFoundAt(args, flag, k + 1, i);
    }
  }

  /** Without the flag among the arguments that have a value after them, the
      environment decides. */
  lemma {:induction false} NoFlagFallsBack(args: seq<string>, env: Environment, name: string)
    requires forall j :: 0 <= j < |args| - 1 ==> !EqualsIgnoreCase(args[j], Flag(name))
    ensures Setting(args, env, name) == FromEnvironment(env, name)
  {
    FlagAbsent(args, Flag(name), 0);
  }

  lemma {:induction false} FlagAbsent(args: seq<string>, flag: string, k: nat)
    requires forall j :: k <= j < |args| - 1 ==> !EqualsIgnoreCase(args[j], flag)
    ensures FlagIndex(args, flag, k) == None
    decreases |args| - k
  {
    if k + 1 < |args| {
      FlagAbsent(args, flag, k + 1);
    }
  }

  /** A flag in the last position has no value after it and is ignored. */
  lemma LastFlagIgnored(pre: seq<string>, env: Environment, name: string)
    requires forall j :: 0 <= j < |pre| ==> !EqualsIgnoreCase(pre[j], Flag(name))
    ensures Setting(pre + [Flag(name)], env, name) == FromEnvironment(env, name)
  {
    var args := pre + [Flag(name)];
    forall j | 0 <= j < |args| - 1
      ensures !EqualsIgnoreCase(args[j], Flag(name))
    {
      assert args[j] == pre[j];
    }
    NoFlagFallsBack(args, env, name);
  }

  /** The flag is matched ignoring case. */
  lemma FlagIgnoresCase(env: Environment, dir: string)
    ensures Setting(["--OUTPUTPATH", dir], env, "OutputPath") == Some(dir)
  {
    assert ToUpper("--OUTPUTPATH") == "--OUTPUTPATH";
    assert ToUpper(Flag("OutputPath")) == "--OUTPUTPATH";
    FirstFlagWins(["--OUTPUTPATH", dir], env, "OutputPath", 0);
  }

  /** The variable read for the output directory. */
  lemma OutputPathVariable()
    ensures VariableName("OutputPath") == "SMTP_OUTPUTPATH"
  {
    assert ToUpper("OutputPath") == "OUTPUTPATH";
  }

  /** The variable read for the port. */
  lemma SmtpPortVariable()
    ensures VariableName("SmtpPort") == "SMTP_SMTPPORT"
  {
    assert ToUpper("SmtpPort") == "SMTPPORT";
  }

  /** With neither a flag nor a non-empty variable, `LoadSettings` leaves the
      output directory null and sets the port to 0, not to 25. */
  lemma MissingSettings(env: Environment)
    requires VariableName("OutputPath") !in env || env[VariableName("OutputPath")] == ""
    requires VariableName("SmtpPort") !in env || env[VariableName("SmtpPort")] == ""
    ensures LoadSettings([], env) == Settings(None, 0)
    ensures LoadSettings([], env).smtpPort != DefaultSmtpPort
  {
  }

  /** A port given on the command line is the port loaded, for every 32-bit
      value. */
  lemma PortRoundTrip(n: int, env: Environment)
    requires IsInt32(n)
    ensures LoadSettings([Flag("SmtpPort"), IntToString(n)], env).smtpPort == n
  {
    FirstFlagWins([Flag("SmtpPort"), IntToString(n)], env, "SmtpPort", 0);
    TryParseRoundTrip(n);
  }

  /** A port that does not parse is loaded as 0. */
  lemma UnparsablePortIsZero(args: seq<string>, env: Environment, t: string, i: nat)
    requires Setting(args, env, "SmtpPort") == Some(t)
    requires 0 < i < |t| && !IsDigit(t[i])
    ensures LoadSettings(args, env).smtpPort == 0
  {
    TryParseRejectsNonDigit(t, i);
  }

  /** A port taken from `SMTP_SMTPPORT` is parsed as `int.TryParse` does:
      leading zeros and a leading `+` are accepted. */
  lemma PortFromEnvironment(args: seq<string>, env: Environment, t: string)
    requires forall j :: 0 <= j < |args| - 1 ==> !EqualsIgnoreCase(args[j], Flag("SmtpPort"))
    requires VariableName("SmtpPort") in env && env[VariableName("SmtpPort")] == "+0" + t
    requires t != [] && AllDigits(t) && Value(t) <= Int32Max
    ensures LoadSettings(args, env).smtpPort == Value(t)
  {
    var text := "+0" + t;
    NoFlagFallsBack(args, env, "SmtpPort");
    assert text != "" by { assert text[0] == '+'; }
    assert Setting(args, env, "SmtpPort") == Some(text);
    ValueLeadingZero(t);
    TryParseDigits("0" + t);
    assert "+" + ("0" + t) == text;
    assert TryParseInt(Some(text)) == Some(Value(t) as int);
  }
}
