/** The scraper's configuration checks: the required credentials, and the two
    flags derived from environment variables. An unset variable is `None`. */
module Config {
  import opened Wrappers
  import opened Text

  const UsernameError: string := "TEST_USERNAME is required"
  const PasswordError: string := "TEST_PASSWORD is required"
  const ErrorsHeading: string := "Configuration errors:"

  /** A JavaScript environment value used as a condition. */
  predicate IsSet(rt: Runtime, value: Option<string>) {
    value.Some? && Truthy(rt, value.value)
  }

  /** The errors `validateConfig` collects, username first. */
  function ConfigErrors(username: Option<string>, password: Option<string>): (errors: seq<string>)
    ensures |errors| <= 2
    ensures UsernameError in errors <==> !IsSet(Js, username)
    ensures PasswordError in errors <==> !IsSet(Js, password)
    ensures !IsSet(Js, username) ==> errors[0] == UsernameError
  {
    (if IsSet(Js, username) then [] else [UsernameError])
    + (if IsSet(Js, password) then [] else [PasswordError])
  }

  /** `validateConfig`: passes when both credentials are set, and otherwise
      fails with the heading and the errors on separate lines. */
  function ValidateConfig(username: Option<string>, password: Option<string>): (r: Outcome<string>)
    ensures r.Pass? <==> IsSet(Js, username) && IsSet(Js, password)
    ensures r.Fail? ==> StartsWith(r.error, ErrorsHeading + "\n")
  {
    var errors := ConfigErrors(username, password);
    if |errors| > 0 then
      var msg := ErrorsHeading + "\n" + Join(errors, "\n");
      assert msg[..|ErrorsHeading + "\n"|] == ErrorsHeading + "\n";
      Fail(msg)
    else Pass
  }

  /** The lines of the error message are the heading followed by exactly the
      missing credentials' errors, username first. */
  lemma ValidateConfigLines(username: Option<string>, password: Option<string>)
    requires ValidateConfig(username, password).Fail?
    ensures Split(ValidateConfig(username, password).error, '\n')
            == [ErrorsHeading] + ConfigErrors(username, password)
  {
    var errors := ConfigErrors(username, password);
    NoNewlineInMessages();
    ErrorLinesHaveNoNewline(errors);
    JoinCons(ErrorsHeading, errors, "\n");
    SplitJoin([ErrorsHeading] + errors, '\n');
  }

  lemma NoNewlineInMessages()
    ensures '\n' !in ErrorsHeading && '\n' !in UsernameError && '\n' !in PasswordError
  {
  }

  lemma ErrorLinesHaveNoNewline(errors: seq<string>)
    requires '\n' !in ErrorsHeading
    requires forall k :: 0 <= k < |errors| ==> errors[k] == UsernameError || errors[k] == PasswordError
    requires '\n' !in UsernameError && '\n' !in PasswordError
    ensures forall k :: 0 <= k < |errors| + 1 ==> '\n' !in ([ErrorsHeading] + errors)[k]
  {
  }

  /** Joining a first part to a non-empty rest puts one separator between. */
  lemma JoinCons(first: string, rest: seq<string>, sep: string)
    requires |rest| > 0
    ensures Join([first] + rest, sep) == first + sep + Join(rest, sep)
  {
    assert ([first] + rest)[1..] == rest;
  }

  /** The stand-alone scripts' credential check, with each runtime's
      truthiness: PHP also rejects the value "0". */
  function ScriptCredentials(rt: Runtime, username: Option<string>, password: Option<string>): (r: Outcome<string>)
    ensures r.Pass? <==> IsSet(rt, username) && IsSet(rt, password)
  {
    if !IsSet(rt, username) || !IsSet(rt, password)
    then Fail("Please set TEST_USERNAME and TEST_PASSWORD in .env file")
    else Pass
  }

  /** The JavaScript script accepts exactly the credentials `validateConfig`
      accepts; the PHP script accepts them too unless one of them is "0". */
  lemma ScriptCredentialsAgree(username: Option<string>, password: Option<string>)
    ensures ScriptCredentials(Js, username, password).Pass? <==> ValidateConfig(username, password).Pass?
    ensures ScriptCredentials(Php, username, password).Pass?
            <==> ValidateConfig(username, password).Pass? && username != Some("0") && password != Some("0")
    ensures ScriptCredentials(Php, username, password).Pass? ==> ScriptCredentials(Js, username, password).Pass?
  {
  }

  lemma ZeroPasswordDiffers()
    ensures ScriptCredentials(Js, Some("u"), Some("0")).Pass?
    ensures ScriptCredentials(Php, Some("u"), Some("0")).Fail?
  {
  }

  /** `TEST_MODE === "true"`. */
  function TestMode(env: Option<string>): (on: bool)
    ensures on <==> env.Some? && env.value == "true"
  {
    env == Some("true")
  }

  /** `telegram.enabled`: the token and the chat ID are both set. */
  function TelegramEnabled(botToken: Option<string>, chatId: Option<string>): (on: bool)
    ensures on <==> botToken.Some? && botToken.value != "" && chatId.Some? && chatId.value != ""
  {
    IsSet(Js, botToken) && IsSet(Js, chatId)
  }
}
