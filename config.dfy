/** The destination's configuration and the credential check run after it is parsed. */
module Config {

  datatype Option<T> = None | Some(value: T)

  const AuthMechanismBasic := "basic"
  const AuthMechanismNone := "none"

  /** The error validateConfig reports. */
  const BasicCredentialsMissing :=
    "auth.basic.username and auth.basic.password should be provided for basic authentication mechanism"

  /** DestinationConfig; a Go string field left unset is the empty string. */
  datatype DestinationConfig = DestinationConfig(
    keyspace: string,
    table: string,
    host: string,
    port: int,
    authMechanism: string,
    authUsername: string,
    authPassword: string)

  /**
   * validateConfig: an error (Some) exactly for the basic mechanism with a
   * credential missing; every other mechanism passes whatever the credentials hold.
   */
  function ValidateConfig(d: DestinationConfig): (err: Option<string>)
    ensures err.Some? ==> err.value == BasicCredentialsMissing && d.authMechanism == AuthMechanismBasic
    ensures err.Some? ==> d.authUsername == "" || d.authPassword == ""
    ensures d.authMechanism == AuthMechanismBasic && d.authUsername != "" && d.authPassword != "" ==> err == None
  {
    if d.authMechanism == AuthMechanismBasic && (d.authUsername == "" || d.authPassword == "") then
      Some(BasicCredentialsMissing)
    else
      None
  }

  /** Basic authentication without a username is refused. */
  lemma BasicNeedsUsername(d: DestinationConfig)
    requires d.authMechanism == AuthMechanismBasic && d.authUsername == ""
    ensures ValidateConfig(d) == Some(BasicCredentialsMissing)
  {
  }

  /** Basic authentication without a password is refused. */
  lemma BasicNeedsPassword(d: DestinationConfig)
    requires d.authMechanism == AuthMechanismBasic && d.authPassword == ""
    ensures ValidateConfig(d) == Some(BasicCredentialsMissing)
  {
  }

  /** Any mechanism other than basic passes, the none mechanism included. */
  lemma OtherMechanismsPass(d: DestinationConfig)
    requires d.authMechanism != AuthMechanismBasic
    ensures ValidateConfig(d) == None
  {
  }

  /** The check depends on the mechanism and the credentials alone. */
  lemma OnlyCredentialsMatter(d: DestinationConfig, e: DestinationConfig)
    requires d.authMechanism == e.authMechanism
    requires (d.authUsername == "") == (e.authUsername == "") && (d.authPassword == "") == (e.authPassword == "")
    ensures ValidateConfig(d) == ValidateConfig(e)
  {
  }

  /** The table of credential cases: a missing password, a missing username, both missing, the none mechanism. */
  lemma CredentialTestCases()
    ensures ValidateConfig(DestinationConfig("", "", "", 0, AuthMechanismBasic, "username", "")).Some?
    ensures ValidateConfig(DestinationConfig("", "", "", 0, AuthMechanismBasic, "", "pass")).Some?
    ensures ValidateConfig(DestinationConfig("", "", "", 0, AuthMechanismBasic, "", "")).Some?
    ensures ValidateConfig(DestinationConfig("", "", "", 0, AuthMechanismNone, "", "")) == None
  {
  }
}
