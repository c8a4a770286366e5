/** The parsed command line and the validation that follows parsing. */
module Cli {
  import opened Bytes
  import opened Pdu
  import opened Usm
  import opened Text

  datatype SnmpVersion = V1 | V2c | V3

  datatype SecurityLevel = NoAuthNoPrivLevel | AuthNoPrivLevel | AuthPrivLevel

  /** What an IP address parser makes of the argument of `--src-addr`. */
  datatype AddressLiteral = V4Literal(ip: Ipv4) | V6Literal | NotAnAddress

  datatype Cli = Cli(
    version: SnmpVersion, community: string, timeout: u32, retries: byte,
    srcAddr: Option<AddressLiteral>, srcPort: Option<u16>,
    securityLevel: Option<SecurityLevel>, userName: Option<string>,
    authProtocol: Option<AuthProtocol>, authPassword: Option<string>,
    privProtocol: Option<PrivProtocol>, privPassword: Option<string>,
    contextEngineId: Option<string>, authoritativeEngineId: Option<string>, contextName: Option<string>,
    trapArgs: seq<string>)
  {
    function SrcAddrV4(): Option<Ipv4> {
      match srcAddr
      case Some(V4Literal(ip)) => Some(ip)
      case _ => None
    }

    /** Which SNMPv3 flags are present, in the order they are checked. */
    function V3Flags(): seq<bool> {
      [securityLevel.Some?, userName.Some?, authProtocol.Some?, authPassword.Some?, privProtocol.Some?,
       privPassword.Some?, contextEngineId.Some?, authoritativeEngineId.Some?, contextName.Some?]
    }
  }

  type Checked = Result<()>

  const FINE: Checked := Ok(())

  /** `require_some`. */
  function RequireSome<T>(value: Option<T>): Checked {
    if value.None? then Err(Usage(MissingProtocol)) else FINE
  }

  /** `require_password`; the length is counted in octets of UTF-8. */
  function RequirePassword(value: Option<string>): Checked {
    match value
    case None => Err(Usage(MissingPassword))
    case Some(s) =>
      if s == "" then Err(Usage(MissingPassword))
      else if |Utf8(s)| < MIN_PASSWORD_LEN then Err(Usage(ShortPassword))
      else FINE
  }

  /** `validate_v3_required`; an absent level fails the `expect`. */
  function V3Required(cli: Cli): Checked {
    match cli.securityLevel
    case None => Panic
    case Some(level) =>
      if cli.userName.None? || cli.userName.value == "" then Err(Usage(MissingUser))
      else
        match level
        case NoAuthNoPrivLevel => FINE
        case AuthNoPrivLevel =>
          var _ :- RequireSome(cli.authProtocol);
          RequirePassword(cli.authPassword)
        case AuthPrivLevel =>
          var _ :- RequireSome(cli.authProtocol);
          var _ :- RequirePassword(cli.authPassword);
          var _ :- RequireSome(cli.privProtocol);
          RequirePassword(cli.privPassword)
  }

  /** `validate_v3_flag_scope`: looks for the first SNMPv3 flag under an older version. */
  method ValidateV3FlagScope(cli: Cli) returns (r: Checked)
    ensures r == if cli.version != V3 && true in cli.V3Flags() then Err(Usage(V3FlagOutOfScope)) else FINE
  {
    if cli.version == V3 {
      return FINE;
    }
    var pairs := cli.V3Flags();
    for i := 0 to |pairs|
      invariant true !in pairs[..i]
    {
      if pairs[i] {
        return Err(Usage(V3FlagOutOfScope));
      }
    }
    assert pairs[..|pairs|] == pairs;
    return FINE;
  }

  /** A password long enough, counted in octets. */
  predicate LongEnough(p: Option<string>) {
    p.Some? && |Utf8(p.value)| >= 8
  }

  /** What the level asks for is there. */
  predicate LevelSatisfied(cli: Cli, level: SecurityLevel) {
    match level
    case NoAuthNoPrivLevel => true
    case AuthNoPrivLevel => cli.authProtocol.Some? && LongEnough(cli.authPassword)
    case AuthPrivLevel =>
      cli.authProtocol.Some? && LongEnough(cli.authPassword)
      && cli.privProtocol.Some? && LongEnough(cli.privPassword)
  }

  function Level(cli: Cli): SecurityLevel {
    if cli.securityLevel.Some? then cli.securityLevel.value else NoAuthNoPrivLevel
  }

  /** What the level that is given asks for is there; without `-l` nothing is asked for. */
  predicate LevelMet(cli: Cli) {
    match cli.securityLevel
    case None => true
    case Some(level) => LevelSatisfied(cli, level)
  }

  predicate NoV3Flag(cli: Cli) {
    && cli.securityLevel.None? && cli.userName.None?
    && cli.authProtocol.None? && cli.authPassword.None? && cli.privProtocol.None? && cli.privPassword.None?
    && cli.contextEngineId.None? && cli.authoritativeEngineId.None? && cli.contextName.None?
  }

  /** The command lines that may be used. */
  predicate Acceptable(cli: Cli) {
    && cli.timeout > 0
    && cli.srcPort != Some(0)
    && (cli.srcAddr.Some? ==> cli.srcAddr.value.V4Literal?)
    && if cli.version == V3 then cli.userName.Some? && cli.userName.value != "" && LevelMet(cli)
       else cli.community != "" && NoV3Flag(cli)
  }

  function WithDefaultLevel(cli: Cli): Cli {
    if cli.version == V3 then cli.(securityLevel := Some(Level(cli))) else cli
  }

  /** The first objection to a command line, or the command line with its defaults. */
  function Verdict(cli: Cli): Result<Cli> {
    if cli.version != V3 && cli.community == "" then Err(Usage(EmptyCommunity))
    else if cli.timeout == 0 then Err(Usage(ZeroTimeout))
    else if cli.srcPort == Some(0) then Err(Usage(ZeroSourcePort))
    else if cli.srcAddr == Some(V6Literal) then Err(Usage(Ipv6SourceAddress))
    else if cli.srcAddr == Some(NotAnAddress) then Err(Usage(BadSourceAddress))
    else if cli.version != V3 && true in cli.V3Flags() then Err(Usage(V3FlagOutOfScope))
    else
      var defaulted := WithDefaultLevel(cli);
      if cli.version == V3 && !V3Required(defaulted).Ok?
      then (match V3Required(defaulted) case Err(e) => Err(e) case _ => Panic)
      else Ok(defaulted)
  }

  lemma RequirePasswordIff(p: Option<string>)
    ensures RequirePassword(p).Ok? <==> LongEnough(p)
    ensures RequirePassword(p).Err? ==> RequirePassword(p).error.Usage?
    ensures !RequirePassword(p).Panic?
  {
  }

  lemma V3RequiredIff(cli: Cli)
    requires cli.securityLevel.Some?
    ensures V3Required(cli).Ok?
       <==> cli.userName.Some? && cli.userName.value != "" && LevelSatisfied(cli, cli.securityLevel.value)
    ensures !V3Required(cli).Panic?
    ensures V3Required(cli).Err? ==> V3Required(cli).error.Usage?
  {
  }

  /**
   Validation accepts exactly the acceptable command lines, fills in the default security level under
   version 3 and changes nothing else; every refusal is a usage error, and no `expect` fails.
   */
  lemma VerdictIff(cli: Cli)
    ensures Verdict(cli).Ok? <==> Acceptable(cli)
    ensures Verdict(cli).Ok? ==>
      Verdict(cli).value == if cli.version == V3 && cli.securityLevel.None?
                            then cli.(securityLevel := Some(NoAuthNoPrivLevel)) else cli
    ensures Verdict(cli).Ok? || (Verdict(cli).Err? && Verdict(cli).error.Usage?)
  {
    hide V3Required, LevelSatisfied;
    if cli.version == V3 {
      V3RequiredIff(WithDefaultLevel(cli));
      LevelSatisfiedByDefault(cli);
    }
  }

  lemma LevelSatisfiedByDefault(cli: Cli)
    requires cli.version == V3
    ensures LevelSatisfied(WithDefaultLevel(cli), Level(cli)) <==> LevelSatisfied(cli, Level(cli))
    ensures LevelSatisfied(cli, Level(cli)) <==> LevelMet(cli)
  {
  }

  /**
   Without `-l` a version 3 command line is accepted exactly when timeout, ports, source address and user
   are in order, whatever its protocols and passwords, and runs at noAuthNoPriv.
   */
  lemma NoLevelIff(cli: Cli)
    requires cli.version == V3 && cli.securityLevel.None?
    ensures Verdict(cli).Ok? <==>
            && cli.timeout > 0 && cli.srcPort != Some(0)
            && cli.srcAddr != Some(V6Literal) && cli.srcAddr != Some(NotAnAddress)
            && cli.userName.Some? && cli.userName.value != ""
    ensures Verdict(cli).Ok? ==> Verdict(cli).value.securityLevel == Some(NoAuthNoPrivLevel)
  {
    hide Verdict;
    VerdictIff(cli);
  }

  /** `validate`. */
  method Validate(cli: Cli) returns (r: Result<Cli>)
    ensures r == Verdict(cli)
  {
    var self := cli;
    if self.version != V3 && self.community == "" {
      return Err(Usage(EmptyCommunity));
    }
    if self.timeout == 0 {
      return Err(Usage(ZeroTimeout));
    }
    if self.srcPort == Some(0) {
      return Err(Usage(ZeroSourcePort));
    }
    match self.srcAddr {
      case None =>
      case Some(V4Literal(_)) =>
      case Some(V6Literal) =>
        return Err(Usage(Ipv6SourceAddress));
      case Some(NotAnAddress) =>
        return Err(Usage(BadSourceAddress));
    }
    var scope := ValidateV3FlagScope(self);
    if !scope.Ok? {
      return Err(scope.error);
    }
    if self.version == V3 {
      if self.securityLevel.None? {
        self := self.(securityLevel := Some(NoAuthNoPrivLevel));
      }
      V3RequiredIff(self);
      var required := V3Required(self);
      if required.Err? {
        return Err(required.error);
      }
    }
    return Ok(self);
  }

  /**
   Protocols do not ask for their passwords, levels do: an accepted version 3 command line is still
   accepted without -A exactly at noAuthNoPriv, and without -X exactly below authPriv.
   */
  lemma OmittedPasswordIff(cli: Cli)
    requires cli.version == V3 && Verdict(cli).Ok?
    ensures Verdict(cli.(authPassword := None)).Ok?
       <==> cli.securityLevel.None? || cli.securityLevel == Some(NoAuthNoPrivLevel)
    ensures Verdict(cli.(privPassword := None)).Ok? <==> cli.securityLevel != Some(AuthPrivLevel)
  {
    hide Verdict;
    VerdictIff(cli);
    VerdictIff(cli.(authPassword := None));
    VerdictIff(cli.(privPassword := None));
  }

  /** An accepted command line that names both protocols and has neither password. */
  predicate ProtocolsWithoutPasswords(cli: Cli) {
    && cli.version == V3 && Verdict(cli).Ok?
    && cli.authProtocol.Some? && cli.authPassword.None? && cli.privProtocol.Some? && cli.privPassword.None?
  }

  /** There is one, without `-l` or at noAuthNoPriv and at no other level. */
  lemma ProtocolsWithoutPasswordsIff(level: Option<SecurityLevel>)
    ensures (exists cli :: ProtocolsWithoutPasswords(cli) && cli.securityLevel == level)
       <==> level.None? || level == Some(NoAuthNoPrivLevel)
  {
    hide Verdict;
    var cli := Cli(V3, "", 1, 0, None, None, level, Some("trapper"), Some(Sha256), None, Some(Aes128), None,
                   None, None, None, []);
    VerdictIff(cli);
    forall cli | ProtocolsWithoutPasswords(cli)
      ensures cli.securityLevel.None? || cli.securityLevel == Some(NoAuthNoPrivLevel)
    {
      VerdictIff(cli);
    }
    if level.None? || level == Some(NoAuthNoPrivLevel) {
      assert ProtocolsWithoutPasswords(cli) && cli.securityLevel == level;
    }
  }

  /** Every password of eight characters passes, and so do shorter ones that take eight octets. */
  lemma PasswordLength(s: string)
    ensures |s| >= 8 ==> RequirePassword(Some(s)).Ok?
    ensures var four := ['\U{E9}', '\U{E9}', '\U{E9}', '\U{E9}'];
            |four| < 8 && RequirePassword(Some(four)).Ok?
  {
  }
}
