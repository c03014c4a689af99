/** The translation of trap PDUs between SNMPv1 and SNMPv2, sections 3.1 and
    3.2 of RFC 3584. */
module Traps {
  import opened Oids

  const MAX_OID_LEN := 128
  const ENTERPRISE_SPECIFIC := 6

  const TRAP_PREFIX: Oid := [1, 3, 6, 1, 6, 3, 1, 1, 5]
  const COLD_START: Oid := [1, 3, 6, 1, 6, 3, 1, 1, 5, 1]
  const SNMP_TRAP: Oid := [1, 3, 6, 1, 6, 3, 1, 1, 4, 1, 0]
  const SNMP_TRAP_ENTERPRISE: Oid := [1, 3, 6, 1, 6, 3, 1, 1, 4, 3, 0]
  const SYS_UPTIME: Oid := [1, 3, 6, 1, 2, 1, 1, 3, 0]
  const AGENT_ADDR: Oid := [1, 3, 6, 1, 6, 3, 18, 1, 3, 0]
  const COMMUNITY: Oid := [1, 3, 6, 1, 6, 3, 18, 1, 4, 0]

  datatype Option<T> = None | Some(value: T)

  datatype Value = Ticks(ticks: nat) | Name(oid: Oid) | Address(bytes: seq<nat>) | Text(text: string) | Counter64(c: nat) | Other(x: int)

  datatype Varbind = Varbind(name: Oid, value: Value)

  datatype Command = Trap | Trap2

  /** The parts of a PDU that matter for traps. */
  datatype Pdu = Pdu(command: Command, time: nat, trapType: int, specificType: nat, enterprise: Oid,
                     agentAddr: seq<nat>, community: Option<string>, variables: seq<Varbind>)

  /** The varbinds with a meaning in traps have the types that their MIB
      definitions give them, and a trap OID does not end before the prefix of
      the standard traps is complete and followed by a number. */
  ghost predicate Typed(vars: seq<Varbind>) {
    forall v | v in vars :: TypedOne(v)
  }

  ghost predicate TypedOne(v: Varbind) {
    && (v.name == SYS_UPTIME ==> v.value.Ticks?)
    && (v.name == SNMP_TRAP ==> v.value.Name? && !Prefix(v.value.oid, TRAP_PREFIX))
    && (v.name == SNMP_TRAP_ENTERPRISE ==> v.value.Name?)
    && (v.name == AGENT_ADDR ==> v.value.Address? && |v.value.bytes| == 4)
    && (v.name == COMMUNITY ==> v.value.Text?)
  }

  ghost predicate WellFormed(p: Pdu) {
    Typed(p.variables) && p.trapType >= -1 && |p.agentAddr| == 4
  }

  // ----- finding varbinds -----

  /** The first varbind of a name, as a position; the length if there is none. */
  function Find(vars: seq<Varbind>, name: Oid): (k: nat)
    ensures k <= |vars| && (k < |vars| ==> vars[k].name == name) && forall j | 0 <= j < k :: vars[j].name != name
  {
    if vars == [] then 0 else if vars[0].name == name then 0 else 1 + Find(vars[1..], name)
  }

  method FindVarbind(vars: seq<Varbind>, name: Oid) returns (k: nat)
    ensures k == Find(vars, name)
  {
    k := 0;
    while k < |vars|
      invariant k <= |vars| && forall j | 0 <= j < k :: vars[j].name != name
    {
      var c := Compare(vars[k].name, name);
      Trichotomy(vars[k].name, name);
      if c == 0 {
        break;
      }
      k := k + 1;
    }
    FindIs(vars, name, k);
  }

  lemma {:induction false} FindIs(vars: seq<Varbind>, name: Oid, k: nat)
    requires k <= |vars| && (k < |vars| ==> vars[k].name == name) && forall j | 0 <= j < k :: vars[j].name != name
    ensures Find(vars, name) == k
  {
    if k > 0 {
      assert forall j | 0 <= j < k - 1 :: vars[1..][j] == vars[j + 1];
      FindIs(vars[1..], name, k - 1);
    }
  }

  predicate Has(vars: seq<Varbind>, name: Oid) { Find(vars, name) < |vars| }

  /** What a varbind of that name says, or a default. */
  function NameOr(vars: seq<Varbind>, name: Oid, default: Oid): Oid {
    if Has(vars, name) && vars[Find(vars, name)].value.Name? then vars[Find(vars, name)].value.oid else default
  }

  function AddressOr(vars: seq<Varbind>, name: Oid, default: seq<nat>): seq<nat> {
    if Has(vars, name) && vars[Find(vars, name)].value.Address? then vars[Find(vars, name)].value.bytes else default
  }

  predicate Carries64(vars: seq<Varbind>) { exists k :: 0 <= k < |vars| && vars[k].value.Counter64? }

  /** Searching a concatenation searches the first part first. */
  lemma {:induction false} FindConcat(a: seq<Varbind>, b: seq<Varbind>, name: Oid)
    ensures Find(a + b, name) == if Has(a, name) then Find(a, name) else |a| + Find(b, name)
  {
    var k := if Has(a, name) then Find(a, name) else |a| + Find(b, name);
    assert forall j | 0 <= j < |a| :: (a + b)[j] == a[j];
    assert forall j | 0 <= j < |b| :: (a + b)[|a| + j] == b[j];
    assert forall j | |a| <= j < |a| + |b| :: (a + b)[j] == b[j - |a|];
    FindIs(a + b, name, k);
  }

  /** No varbind has the name. */
  ghost predicate Absent(vars: seq<Varbind>, name: Oid) { forall v | v in vars :: v.name != name }

  /** The first varbind of the name has this value. */
  ghost predicate Says(vars: seq<Varbind>, name: Oid, value: Value) {
    exists k :: 0 <= k < |vars| && vars[k] == Varbind(name, value) && forall j | 0 <= j < k :: vars[j].name != name
  }

  /** Finding a varbind, or none. */
  lemma FindSays(vars: seq<Varbind>, name: Oid)
    ensures if Has(vars, name) then Says(vars, name, vars[Find(vars, name)].value) else Absent(vars, name)
  {
    hide Find;
    HasFound(vars, name);
    var k := Find(vars, name);
    if k < |vars| {
      assert vars[k] == Varbind(name, vars[k].value);
    }
  }

  // ----- the trap OID -----

  function TrapOid(p: Pdu): Oid
    requires p.trapType >= -1
  {
    if p.trapType == ENTERPRISE_SPECIFIC then p.enterprise + [0, p.specificType] else TRAP_PREFIX + [p.trapType + 1]
  }

  predicate OidTooLong(p: Pdu, room: nat) {
    if p.trapType == ENTERPRISE_SPECIFIC then |p.enterprise| > MAX_OID_LEN || room < |p.enterprise| + 2 else room < |COLD_START|
  }

  /** Fill a buffer with the trap OID. */
  method BuildTrapOid(p: Pdu, buffer: array<nat>) returns (ok: bool, len: nat)
    requires p.trapType >= -1
    modifies buffer
    ensures ok <==> !OidTooLong(p, buffer.Length)
    ensures ok ==> len <= buffer.Length && buffer[..len] == TrapOid(p)
  {
    len := 0;
    if p.trapType == ENTERPRISE_SPECIFIC {
      if |p.enterprise| > MAX_OID_LEN || buffer.Length < |p.enterprise| + 2 {
        return false, 0;
      }
      while len < |p.enterprise|
        invariant len <= |p.enterprise| && buffer[..len] == p.enterprise[..len]
      {
        buffer[len] := p.enterprise[len];
        len := len + 1;
      }
      buffer[len] := 0;
      buffer[len + 1] := p.specificType;
      assert buffer[..len] == p.enterprise;
      assert buffer[..len + 2] == buffer[..len] + [0, p.specificType];
      len := len + 2;
    } else {
      if buffer.Length < |COLD_START| {
        return false, 0;
      }
      while len < |COLD_START|
        invariant len <= |COLD_START| && buffer[..len] == COLD_START[..len]
      {
        buffer[len] := COLD_START[len];
        len := len + 1;
      }
      assert buffer[..10] == COLD_START;
      buffer[9] := p.trapType + 1;
      assert buffer[..9] == COLD_START[..9] == TRAP_PREFIX;
      assert buffer[..10] == buffer[..9] + [p.trapType + 1];
    }
    ok := true;
  }

  // ----- version 1 to version 2 -----

  function Extra(vars: seq<Varbind>, name: Oid, value: Value, wanted: bool): seq<Varbind> {
    if !Has(vars, name) && wanted then [Varbind(name, value)] else []
  }

  function Leading(p: Pdu): seq<Varbind>
    requires p.trapType >= -1
  {
    [Varbind(SYS_UPTIME, Ticks(p.time)), Varbind(SNMP_TRAP, Name(TrapOid(p)))]
  }

  predicate Zero(addr: seq<nat>) { forall i | 0 <= i < |addr| :: addr[i] == 0 }

  /** What is appended to the varbinds of a version 1 trap. */
  function Trailing(p: Pdu): seq<Varbind> {
    Extra(p.variables, AGENT_ADDR, Address(p.agentAddr), !Zero(p.agentAddr))
    + Extra(p.variables, COMMUNITY, Text(if p.community.Some? then p.community.value else ""), p.community.Some?)
    + Extra(p.variables, SNMP_TRAP_ENTERPRISE, Name(p.enterprise), true)
  }

  function V1ToV2(p: Pdu): Option<Pdu>
    requires p.trapType >= -1
  {
    if OidTooLong(p, MAX_OID_LEN) then None
    else Some(p.(command := Trap2, variables := Leading(p) + p.variables + Trailing(p)))
  }

  /** What becomes of a version 1 trap: sysUpTime and the trap OID come first,
      then the varbinds it had, and then the address (unless it is all zeros),
      the community (if there is one) and the enterprise, each unless a varbind
      of that name was there. */
  ghost predicate Extended(p: Pdu, q: Pdu)
    requires p.trapType >= -1
  {
    var n := 2 + |p.variables|;
    && q == p.(command := Trap2, variables := q.variables)
    && n <= |q.variables| && q.variables[0] == Varbind(SYS_UPTIME, Ticks(p.time))
    && q.variables[1] == Varbind(SNMP_TRAP, Name(if p.trapType == ENTERPRISE_SPECIFIC then p.enterprise + [0, p.specificType]
                                                 else TRAP_PREFIX + [p.trapType + 1]))
    && q.variables[2..n] == p.variables
    && Appended(p, q.variables[n..])
  }

  ghost predicate Appended(p: Pdu, t: seq<Varbind>) {
    && (Varbind(AGENT_ADDR, Address(p.agentAddr)) in t <==> Absent(p.variables, AGENT_ADDR) && exists i :: 0 <= i < |p.agentAddr| && p.agentAddr[i] != 0)
    && (p.community.Some? ==> (Varbind(COMMUNITY, Text(p.community.value)) in t <==> Absent(p.variables, COMMUNITY)))
    && (Varbind(SNMP_TRAP_ENTERPRISE, Name(p.enterprise)) in t <==> Absent(p.variables, SNMP_TRAP_ENTERPRISE))
    && (forall v | v in t ::
          || v == Varbind(AGENT_ADDR, Address(p.agentAddr)) || v == Varbind(SNMP_TRAP_ENTERPRISE, Name(p.enterprise))
          || (p.community.Some? && v == Varbind(COMMUNITY, Text(p.community.value))))
    && forall j, k | 0 <= j < k < |t| :: t[j].name != t[k].name
  }

  lemma TrailingAppended(p: Pdu)
    ensures Appended(p, Trailing(p))
  {
    hide Has;
    HasFound(p.variables, AGENT_ADDR);
    HasFound(p.variables, COMMUNITY);
    HasFound(p.variables, SNMP_TRAP_ENTERPRISE);
    NamesDiffer();
  }

  lemma ExtendedV1(p: Pdu)
    requires p.trapType >= -1 && V1ToV2(p).Some?
    ensures Extended(p, V1ToV2(p).value)
  {
    hide Appended, Trailing;
    TrailingAppended(p);
    var q := V1ToV2(p).value;
    assert q.variables[2..2 + |p.variables|] == p.variables && q.variables[2 + |p.variables|..] == Trailing(p);
  }

  lemma Regroup<T>(v: seq<T>, a: seq<T>, c: seq<T>, e: seq<T>)
    ensures v + a + c + e == v + (a + c + e)
  {
  }

  lemma HasFound(vars: seq<Varbind>, name: Oid)
    ensures Has(vars, name) <==> Find(vars, name) < |vars|
    ensures Has(vars, name) <==> exists v :: v in vars && v.name == name
  {
    if v :| v in vars && v.name == name {
      var k :| 0 <= k < |vars| && vars[k] == v;
    }
  }

  lemma HasConcat(a: seq<Varbind>, b: seq<Varbind>)
    ensures forall name :: Has(a + b, name) <==> Has(a, name) || Has(b, name)
  {
    forall name ensures Has(a + b, name) <==> Has(a, name) || Has(b, name) {
      FindConcat(a, b, name);
    }
  }

  lemma NotIn(a: seq<Varbind>, name: Oid, other: Oid)
    requires name != other && forall v | v in a :: v.name == name
    ensures !Has(a, other)
  {
    HasFound(a, other);
  }

  lemma LeadingNames(p: Pdu)
    requires p.trapType >= -1
    ensures !Has(Leading(p), AGENT_ADDR) && !Has(Leading(p), COMMUNITY) && !Has(Leading(p), SNMP_TRAP_ENTERPRISE)
  {
    HasFound(Leading(p), AGENT_ADDR);
    HasFound(Leading(p), COMMUNITY);
    HasFound(Leading(p), SNMP_TRAP_ENTERPRISE);
    assert AGENT_ADDR[4] == 6 && SYS_UPTIME[4] == 2 && SNMP_TRAP[6] == 1 && AGENT_ADDR[6] == 18 && COMMUNITY[6] == 18;
    assert SNMP_TRAP[9] == 1 && SNMP_TRAP_ENTERPRISE[9] == 3 && |SYS_UPTIME| == 9;
  }

  method ConvertV1ToV2(p: Pdu) returns (r: Option<Pdu>)
    requires p.trapType >= -1 && |p.agentAddr| == 4
    ensures r == V1ToV2(p)
    ensures r == None <==> p.trapType == ENTERPRISE_SPECIFIC && |p.enterprise| > MAX_OID_LEN - 2
    ensures r.Some? ==> Extended(p, r.value)
  {
    hide Find, Has, Extended;
    var copy := p.(command := Trap2);
    var buffer := new nat[MAX_OID_LEN];
    var ok, len := BuildTrapOid(p, buffer);
    if !ok {
      return None;
    }
    copy := copy.(variables := [Varbind(SNMP_TRAP, Name(buffer[..len]))] + copy.variables);
    copy := copy.(variables := [Varbind(SYS_UPTIME, Ticks(p.time))] + copy.variables);
    ghost var v := Leading(p) + p.variables;
    assert copy.variables == v;
    HasConcat(Leading(p), p.variables);
    LeadingNames(p);
    var k := FindVarbind(copy.variables, AGENT_ADDR);
    if k == |copy.variables| && (p.agentAddr[0] != 0 || p.agentAddr[1] != 0 || p.agentAddr[2] != 0 || p.agentAddr[3] != 0) {
      copy := copy.(variables := copy.variables + [Varbind(AGENT_ADDR, Address(p.agentAddr))]);
    }
    ghost var a := Extra(p.variables, AGENT_ADDR, Address(p.agentAddr), !Zero(p.agentAddr));
    assert copy.variables == v + a by { HasFound(v, AGENT_ADDR); }
    HasConcat(v, a);
    k := FindVarbind(copy.variables, COMMUNITY);
    HasFound(copy.variables, COMMUNITY);
    if k == |copy.variables| && p.community.Some? {
      copy := copy.(variables := copy.variables + [Varbind(COMMUNITY, Text(p.community.value))]);
    }
    ghost var c := Extra(p.variables, COMMUNITY, Text(if p.community.Some? then p.community.value else ""), p.community.Some?);
    NotIn(a, AGENT_ADDR, COMMUNITY);
    assert copy.variables == v + a + c;
    HasConcat(v + a, c);
    k := FindVarbind(copy.variables, SNMP_TRAP_ENTERPRISE);
    HasFound(copy.variables, SNMP_TRAP_ENTERPRISE);
    NotIn(a, AGENT_ADDR, SNMP_TRAP_ENTERPRISE);
    NotIn(c, COMMUNITY, SNMP_TRAP_ENTERPRISE);
    if k == |copy.variables| {
      copy := copy.(variables := copy.variables + [Varbind(SNMP_TRAP_ENTERPRISE, Name(p.enterprise))]);
    }
    ghost var e := Extra(p.variables, SNMP_TRAP_ENTERPRISE, Name(p.enterprise), true);
    assert copy.variables == v + a + c + e;
    Regroup(v, a, c, e);
    r := Some(copy);
    ExtendedV1(p);
  }

  // ----- version 2 to version 1 -----

  datatype Header = Header(generic: int, specific: nat, enterprise: Oid)

  /** The version 1 trap type, from the trap OID and the varbinds. */
  function Split(oid: Oid, vars: seq<Varbind>): Option<Header>
    requires oid != TRAP_PREFIX
  {
    if Prefix(TRAP_PREFIX, oid) then Some(Header(oid[9] as int - 1, 0, NameOr(vars, SNMP_TRAP_ENTERPRISE, [])))
    else if |oid| <= 2 then None
    else
      var e := oid[..|oid| - 1];
      Some(Header(ENTERPRISE_SPECIFIC, oid[|oid| - 1], if e[|e| - 1] == 0 then e[..|e| - 1] else e))
  }

  function V2ToV1(p: Pdu): Option<Pdu>
    requires forall v | v in p.variables && v.name == SNMP_TRAP :: v.value.Name? && v.value.oid != TRAP_PREFIX
    requires forall v | v in p.variables && v.name == SYS_UPTIME :: v.value.Ticks?
  {
    var vars := p.variables;
    if |vars| < 2 || vars[0].name != SYS_UPTIME || vars[1].name != SNMP_TRAP || Carries64(vars[2..]) then None
    else
      assert vars[0] in vars && vars[1] in vars;
      match Split(vars[1].value.oid, vars[2..])
      case None => None
      case Some(Header(generic, specific, enterprise)) =>
        Some(Pdu(Trap, vars[0].value.ticks, generic, specific, enterprise,
                 AddressOr(vars[2..], AGENT_ADDR, p.agentAddr), p.community, vars[2..]))
  }

  /** The header that a trap OID stands for. Standard traps have their number in
      the OID and their enterprise in a varbind; the OID of any other trap is
      the enterprise, a 0 if the last but one sub-identifier is 0, and the
      specific trap. */
  ghost predicate Separated(oid: Oid, vars: seq<Varbind>, h: Option<Header>) {
    if Prefix(TRAP_PREFIX, oid) then
      && |oid| > 9 && h.Some? && h.value.generic == oid[9] as int - 1 && h.value.specific == 0
      && (Says(vars, SNMP_TRAP_ENTERPRISE, Name(h.value.enterprise)) || (Absent(vars, SNMP_TRAP_ENTERPRISE) && h.value.enterprise == []))
    else if |oid| > 2 then
      && h.Some? && h.value.generic == ENTERPRISE_SPECIFIC
      && oid == h.value.enterprise + if oid[|oid| - 2] == 0 then [0, h.value.specific] else [h.value.specific]
    else h == None
  }

  lemma SplitSeparated(oid: Oid, vars: seq<Varbind>)
    requires oid != TRAP_PREFIX && Typed(vars)
    ensures Separated(oid, vars, Split(oid, vars))
  {
    hide Find, Has;
    FindSays(vars, SNMP_TRAP_ENTERPRISE);
    HasTyped(vars);
    if !Prefix(TRAP_PREFIX, oid) && |oid| > 2 {
      var e := oid[..|oid| - 1];
      assert oid == e + [oid[|oid| - 1]] && e[|e| - 1] == oid[|oid| - 2] && e == e[..|e| - 1] + [e[|e| - 1]];
    }
  }

  /** When a version 2 trap cannot be a version 1 trap. */
  ghost predicate Untranslatable(p: Pdu) {
    || |p.variables| < 2 || p.variables[0].name != SYS_UPTIME || p.variables[1].name != SNMP_TRAP
    || (exists v :: v in p.variables[2..] && v.value.Counter64?)
    || (p.variables[1].value.Name? && !Prefix(TRAP_PREFIX, p.variables[1].value.oid) && |p.variables[1].value.oid| <= 2)
  }

  /** What becomes of one that can: the time, the header and the address are
      those the varbinds tell, and the other varbinds stay. */
  ghost predicate Reduced(p: Pdu, q: Pdu) {
    && |p.variables| >= 2 && p.variables[0].value == Ticks(q.time) && p.variables[1].value.Name?
    && Separated(p.variables[1].value.oid, p.variables[2..], Some(Header(q.trapType, q.specificType, q.enterprise)))
    && (Says(p.variables[2..], AGENT_ADDR, Address(q.agentAddr)) || (Absent(p.variables[2..], AGENT_ADDR) && q.agentAddr == p.agentAddr))
    && q.command == Trap && q.community == p.community && q.variables == p.variables[2..]
  }

  lemma ReducedV2(p: Pdu)
    requires WellFormed(p)
    requires forall v | v in p.variables && v.name == SNMP_TRAP :: v.value.Name? && v.value.oid != TRAP_PREFIX
    requires forall v | v in p.variables && v.name == SYS_UPTIME :: v.value.Ticks?
    ensures V2ToV1(p) == None <==> Untranslatable(p)
    ensures V2ToV1(p).Some? ==> Reduced(p, V2ToV1(p).value)
  {
    hide Find, Has, Separated, Split, Typed;
    var vars := p.variables;
    if |vars| >= 2 && vars[0].name == SYS_UPTIME && vars[1].name == SNMP_TRAP {
      var oid, rest := vars[1].value.oid, vars[2..];
      assert vars[0] in vars && vars[1] in vars;
      TypedRest(vars);
      SplitSeparated(oid, rest);
      SeparatedNone(oid, rest, Split(oid, rest));
      FindSays(rest, AGENT_ADDR);
      HasTyped(rest);
      assert Carries64(rest) <==> exists v :: v in rest && v.value.Counter64?;
    }
  }

  lemma SeparatedNone(oid: Oid, vars: seq<Varbind>, h: Option<Header>)
    requires Separated(oid, vars, h)
    ensures h == None <==> !Prefix(TRAP_PREFIX, oid) && |oid| <= 2
  {
  }

  lemma TakeTake<T>(s: seq<T>, a: nat, b: nat)
    requires b <= a <= |s|
    ensures s[..a][..b] == s[..b]
  {
  }

  /** Set the generic and specific trap types and the enterprise. */
  method SplitTrapOid(vars: seq<Varbind>) returns (h: Option<Header>)
    requires Typed(vars) && |vars| >= 2 && vars[1].name == SNMP_TRAP && vars[1] in vars
    ensures h == Split(vars[1].value.oid, vars[2..]) && Separated(vars[1].value.oid, vars[2..], h)
  {
    hide Find, Has, Separated;
    var oid := vars[1].value.oid;
    TypedRest(vars);
    SplitSeparated(oid, vars[2..]);
    if |oid| >= |TRAP_PREFIX| && oid[..|TRAP_PREFIX|] == TRAP_PREFIX {
      FindTail(vars, SNMP_TRAP_ENTERPRISE);
      HasFound(vars[2..], SNMP_TRAP_ENTERPRISE);
      var k := FindVarbind(vars[1..], SNMP_TRAP_ENTERPRISE);
      if k < |vars[1..]| {
        assert vars[1..][k] in vars;
      }
      return Some(Header(oid[|TRAP_PREFIX|] as int - 1, 0, if k < |vars[1..]| then vars[1..][k].value.oid else []));
    }
    var len := |oid|;
    if len <= 2 {
      return None;
    }
    var specific := oid[len - 1];
    len := len - 1;
    if oid[len - 1] == 0 {
      len := len - 1;
    }
    TakeTake(oid, |oid| - 1, |oid| - 2);
    h := Some(Header(ENTERPRISE_SPECIFIC, specific, oid[..len]));
  }

  /** The agent address, from its varbind if there is one. */
  method AgentAddress(vars: seq<Varbind>, default: seq<nat>) returns (addr: seq<nat>)
    requires Typed(vars) && |vars| >= 2 && vars[1].name == SNMP_TRAP
    ensures addr == AddressOr(vars[2..], AGENT_ADDR, default)
  {
    hide Find, Has;
    FindTail(vars, AGENT_ADDR);
    HasFound(vars[2..], AGENT_ADDR);
    addr := default;
    var k := FindVarbind(vars[1..], AGENT_ADDR);
    if k < |vars[1..]| {
      assert vars[1..][k] in vars;
      addr := vars[1..][k].value.bytes[..4];
    }
  }

  /** Version 1 traps cannot carry Counter64 values. */
  method FindCounter64(vars: seq<Varbind>) returns (found: bool)
    ensures found == Carries64(vars)
  {
    var k := 0;
    while k < |vars|
      invariant k <= |vars| && forall j | 0 <= j < k :: !vars[j].value.Counter64?
    {
      if vars[k].value.Counter64? {
        return true;
      }
      k := k + 1;
    }
    found := false;
  }

  method ConvertV2ToV1(p: Pdu) returns (r: Option<Pdu>)
    requires WellFormed(p)
    ensures r == V2ToV1(p)
    ensures r == None <==> Untranslatable(p)
    ensures r.Some? ==> Reduced(p, r.value)
  {
    hide Find, Has, Split, AddressOr, Untranslatable, Reduced, Separated;
    TypedNames(p.variables);
    ReducedV2(p);
    var copy, vars := p.(command := Trap), p.variables;
    if vars == [] {
      return None;
    }
    assert vars[0] in vars;
    var c := Compare(vars[0].name, SYS_UPTIME);
    Trichotomy(vars[0].name, SYS_UPTIME);
    if c != 0 {
      return None;
    }
    copy := copy.(time := vars[0].value.ticks);
    if |vars| < 2 {
      return None;
    }
    assert vars[1] in vars;
    c := Compare(vars[1].name, SNMP_TRAP);
    Trichotomy(vars[1].name, SNMP_TRAP);
    if c != 0 {
      return None;
    }
    var bad := FindCounter64(vars[2..]);
    if bad {
      return None;
    }
    var h := SplitTrapOid(vars);
    if h == None {
      return None;
    }
    copy := copy.(trapType := h.value.generic, specificType := h.value.specific, enterprise := h.value.enterprise);
    var addr := AgentAddress(vars, p.agentAddr);
    copy := copy.(agentAddr := addr, variables := vars[2..]);
    r := Some(copy);
  }

  /** Searching from the trap OID on finds what searching behind it finds. */
  lemma FindTail(vars: seq<Varbind>, name: Oid)
    requires |vars| >= 2 && vars[1].name != name
    ensures Find(vars[1..], name) == 1 + Find(vars[2..], name)
  {
    assert vars[1..][1..] == vars[2..];
  }

  // ----- there and back -----

  predicate SameHeader(a: Pdu, b: Pdu) {
    && a.time == b.time && a.trapType == b.trapType && a.specificType == b.specificType
    && a.enterprise == b.enterprise && a.agentAddr == b.agentAddr
  }

  /** What a concatenation says for a name: the first part if it says anything. */
  lemma SaysConcat(a: seq<Varbind>, b: seq<Varbind>, name: Oid)
    ensures forall d :: NameOr(a + b, name, d) == if Has(a, name) then NameOr(a, name, d) else NameOr(b, name, d)
    ensures forall d :: AddressOr(a + b, name, d) == if Has(a, name) then AddressOr(a, name, d) else AddressOr(b, name, d)
  {
    FindConcat(a, b, name);
  }

  /** The enterprise and the agent address as the appended varbinds give them. */
  lemma FindTrailing(p: Pdu)
    requires p.trapType >= -1
    ensures var rest := p.variables + Trailing(p);
            && (Typed(p.variables) ==> NameOr(rest, SNMP_TRAP_ENTERPRISE, [])
                                       == NameOr(p.variables, SNMP_TRAP_ENTERPRISE, p.enterprise))
            && (Typed(p.variables) ==> AddressOr(rest, AGENT_ADDR, p.agentAddr)
                                       == AddressOr(p.variables, AGENT_ADDR, p.agentAddr))
  {
    hide Find, Zero;
    var a := Extra(p.variables, AGENT_ADDR, Address(p.agentAddr), !Zero(p.agentAddr));
    var c := Extra(p.variables, COMMUNITY, Text(if p.community.Some? then p.community.value else ""), p.community.Some?);
    var e := Extra(p.variables, SNMP_TRAP_ENTERPRISE, Name(p.enterprise), true);
    NotIn(a, AGENT_ADDR, SNMP_TRAP_ENTERPRISE);
    NotIn(c, COMMUNITY, SNMP_TRAP_ENTERPRISE);
    NotIn(c, COMMUNITY, AGENT_ADDR);
    NotIn(e, SNMP_TRAP_ENTERPRISE, AGENT_ADDR);
    SaysConcat(p.variables, a + c + e, SNMP_TRAP_ENTERPRISE);
    SaysConcat(a + c, e, SNMP_TRAP_ENTERPRISE);
    SaysConcat(p.variables, a + c + e, AGENT_ADDR);
    SaysConcat(a + c, e, AGENT_ADDR);
    SaysConcat(a, c, AGENT_ADDR);
    HasConcat(a, c);
    Single(a);
    Single(e);
    HasTyped(p.variables);
  }

  /** And the community: that of the trap's own varbind if it has one. */
  lemma FindCommunity(p: Pdu)
    ensures var rest := p.variables + Trailing(p);
            if Has(p.variables, COMMUNITY) then Find(rest, COMMUNITY) == Find(p.variables, COMMUNITY)
            else if p.community.Some? then Says(rest, COMMUNITY, Text(p.community.value)) else Absent(rest, COMMUNITY)
  {
    hide Find, Has, Trailing;
    var t := Trailing(p);
    var rest := p.variables + t;
    FindConcat(p.variables, t, COMMUNITY);
    HasFound(p.variables, COMMUNITY);
    TrailingAppended(p);
    NamesDiffer();
    if !Has(p.variables, COMMUNITY) && p.community.Some? {
      var v := Varbind(COMMUNITY, Text(p.community.value));
      assert v in t;
      var k :| 0 <= k < |t| && t[k] == v;
      assert rest[|p.variables| + k] == v;
      assert forall j | 0 <= j < k :: t[j].name != COMMUNITY;
      assert forall j | 0 <= j < |p.variables| :: p.variables[j] in p.variables && rest[j] == p.variables[j];
    }
  }

  lemma Single(s: seq<Varbind>)
    requires |s| <= 1
    ensures forall name :: Find(s, name) == if s != [] && s[0].name != name then 1 else 0
  {
  }

  lemma HasTyped(vars: seq<Varbind>)
    ensures Typed(vars) && Has(vars, SNMP_TRAP_ENTERPRISE) ==> vars[Find(vars, SNMP_TRAP_ENTERPRISE)].value.Name?
    ensures Typed(vars) && Has(vars, AGENT_ADDR) ==> vars[Find(vars, AGENT_ADDR)].value.Address?
  {
    if Has(vars, SNMP_TRAP_ENTERPRISE) {
      assert vars[Find(vars, SNMP_TRAP_ENTERPRISE)] in vars;
    }
    if Has(vars, AGENT_ADDR) {
      assert vars[Find(vars, AGENT_ADDR)] in vars;
    }
  }

  lemma TrailingTyped(p: Pdu)
    requires WellFormed(p)
    ensures Typed(p.variables + Trailing(p)) && Typed(Leading(p) + p.variables + Trailing(p))
    ensures Carries64(p.variables + Trailing(p)) <==> Carries64(p.variables)
  {
    hide Find, Has, Zero, TypedOne;
    BuiltOid(p.enterprise, p.specificType);
    StandardOid(p.trapType);
    NamesDiffer();
    assert Typed(Leading(p)) by { assert TypedOne(Leading(p)[0]) && TypedOne(Leading(p)[1]) by { LeadingTyped(p); } }
    assert Typed(Trailing(p)) by { AppendedTyped(p); }
    hide Trailing, Leading, Carries64;
    Trailing64(p);
    Concat64(p.variables, Trailing(p));
  }

  lemma Trailing64(p: Pdu)
    ensures !Carries64(Trailing(p))
  {
    hide Find, Has, Zero;
    assert forall v | v in Trailing(p) :: !v.value.Counter64?;
  }

  lemma Concat64(a: seq<Varbind>, b: seq<Varbind>)
    ensures Carries64(a + b) <==> Carries64(a) || Carries64(b)
  {
    assert forall k | 0 <= k < |a| :: (a + b)[k] == a[k];
    assert forall k | 0 <= k < |b| :: (a + b)[|a| + k] == b[k];
  }

  lemma LeadingTyped(p: Pdu)
    requires WellFormed(p)
    ensures TypedOne(Leading(p)[0]) && TypedOne(Leading(p)[1])
  {
    BuiltOid(p.enterprise, p.specificType);
    StandardOid(p.trapType);
    NamesDiffer();
  }

  lemma AppendedTyped(p: Pdu)
    requires WellFormed(p)
    ensures Typed(Trailing(p))
  {
    NamesDiffer();
    assert TypedOne(Varbind(AGENT_ADDR, Address(p.agentAddr)));
    assert forall t :: TypedOne(Varbind(COMMUNITY, Text(t)));
    assert TypedOne(Varbind(SNMP_TRAP_ENTERPRISE, Name(p.enterprise)));
    hide TypedOne, Has;
  }

  /** The names are told apart by their lengths or by one sub-identifier. */
  lemma NamesDiffer()
    ensures AGENT_ADDR != COMMUNITY && AGENT_ADDR != SNMP_TRAP && AGENT_ADDR != SNMP_TRAP_ENTERPRISE && AGENT_ADDR != SYS_UPTIME
    ensures COMMUNITY != SNMP_TRAP && COMMUNITY != SNMP_TRAP_ENTERPRISE && COMMUNITY != SYS_UPTIME
    ensures SNMP_TRAP != SNMP_TRAP_ENTERPRISE && SNMP_TRAP != SYS_UPTIME && SNMP_TRAP_ENTERPRISE != SYS_UPTIME
  {
    assert |AGENT_ADDR| == |COMMUNITY| == 10 && |SYS_UPTIME| == 9 && |SNMP_TRAP| == |SNMP_TRAP_ENTERPRISE| == 11;
    assert AGENT_ADDR[8] == 3 && COMMUNITY[8] == 4 && SNMP_TRAP[9] == 1 && SNMP_TRAP_ENTERPRISE[9] == 3;
  }

  /** A trap OID built from an enterprise is a standard one only if the
      enterprise is below snmpTraps itself; and it is never the bare prefix. */
  lemma BuiltOid(e: Oid, s: nat)
    ensures Prefix(TRAP_PREFIX, e + [0, s]) <==> Prefix(TRAP_PREFIX, e)
    ensures !Prefix(e + [0, s], TRAP_PREFIX)
  {
    var o := e + [0, s];
    assert o[|e|] == 0 && forall k | 0 <= k < 9 :: TRAP_PREFIX[k] != 0;
    if Prefix(TRAP_PREFIX, o) {
      assert forall k | 0 <= k < 9 :: o[k] == o[..9][k] == TRAP_PREFIX[k];
      assert |e| >= 9 && e[..9] == o[..9];
    }
    if Prefix(TRAP_PREFIX, e) {
      assert o[..9] == e[..9];
    }
  }

  /** When a version 1 trap survives the way to version 2 and back. */
  ghost predicate Restorable(p: Pdu) {
    && !Carries64(p.variables)
    && AddressOr(p.variables, AGENT_ADDR, p.agentAddr) == p.agentAddr
    && (p.trapType == ENTERPRISE_SPECIFIC ==> 1 <= |p.enterprise| <= MAX_OID_LEN - 2)
    && (p.trapType != ENTERPRISE_SPECIFIC || Prefix(TRAP_PREFIX, p.enterprise) ==>
          && p.specificType == 0
          && NameOr(p.variables, SNMP_TRAP_ENTERPRISE, p.enterprise) == p.enterprise
          && (p.trapType == ENTERPRISE_SPECIFIC ==> |p.enterprise| > 9 && p.enterprise[9] == ENTERPRISE_SPECIFIC + 1))
  }

  /** Version 1 to version 2 to version 1: the varbinds are kept, with the
      conversion's own behind them, and the header is restored exactly when the
      trap is restorable. */
  lemma RoundTripV1(p: Pdu)
    requires WellFormed(p)
    ensures var q := V1ToV2(p);
            && (q.Some? ==> WellFormed(q.value) && q.value.variables == Leading(p) + p.variables + Trailing(p))
            && (q.Some? && V2ToV1(q.value).Some? ==> V2ToV1(q.value).value.variables == p.variables + Trailing(p))
            && (q.Some? && V2ToV1(q.value).Some? && SameHeader(p, V2ToV1(q.value).value) <==> Restorable(p))
  {
    hide Find, Has, Trailing, Carries64, NameOr, AddressOr, Typed;
    FindTrailing(p);
    TrailingTyped(p);
    BuiltOid(p.enterprise, p.specificType);
    var rest, vars := p.variables + Trailing(p), Leading(p) + p.variables + Trailing(p);
    assert vars[2..] == rest && vars[0] == Leading(p)[0] && vars[1] == Leading(p)[1];
    StandardOid(p.trapType);
    TypedNames(vars);
  }

  /** A trap that is not restored: its enterprise of 127 sub-identifiers leaves
      no room for the specific type. */
  lemma LongEnterprise()
    ensures var p := Pdu(Trap, 0, ENTERPRISE_SPECIFIC, 0, seq(127, i => 1), [0, 0, 0, 0], None, []);
            WellFormed(p) && !Restorable(p) && V1ToV2(p) == None
  {
  }

  lemma StandardOid(generic: int)
    requires generic >= -1
    ensures var o := TRAP_PREFIX + [generic + 1]; Prefix(TRAP_PREFIX, o) && o[9] == generic + 1 && !Prefix(o, TRAP_PREFIX)
  {
  }

  lemma TypedNames(vars: seq<Varbind>)
    requires Typed(vars)
    ensures forall v | v in vars && v.name == SNMP_TRAP :: v.value.Name? && v.value.oid != TRAP_PREFIX
    ensures forall v | v in vars && v.name == SYS_UPTIME :: v.value.Ticks?
  {
  }

  /** Version 2 to version 1 and then to version 2 and version 1 again gives the
      same header, except that an enterprise can be too long, and that the
      standard trap number 7, which is not defined, turns into an enterprise
      specific trap. */
  lemma RoundTripV2(p: Pdu)
    requires WellFormed(p) && V2ToV1(p).Some?
    ensures var q := V2ToV1(p).value;
            var oid := p.variables[1].value.oid;
            var r := V1ToV2(q);
            && WellFormed(q) && (r.Some? ==> WellFormed(r.value))
            && (r.Some? && V2ToV1(r.value).Some? && SameHeader(q, V2ToV1(r.value).value) <==>
                  if !Prefix(TRAP_PREFIX, oid) then |q.enterprise| <= MAX_OID_LEN - 2
                  else oid[9] != ENTERPRISE_SPECIFIC + 1 || Unmistakable(q.enterprise))
  {
    hide Find, Has, Typed;
    TypedNames(p.variables);
    var q := V2ToV1(p).value;
    var vars := p.variables;
    assert Typed(vars[2..]) by { TypedRest(vars); }
    HasTyped(vars[2..]);
    Stripped(vars[1].value.oid);
    AddressSize(vars[2..], p.agentAddr);
    RoundTripV1(q);
  }

  /** A trap that does not survive: snmpTraps.7 is taken for an enterprise
      specific trap of no enterprise, which is no trap OID the second time. */
  lemma UndefinedTrap()
    ensures var p := Pdu(Trap2, 0, 0, 0, [], [0, 0, 0, 0], None,
                         [Varbind(SYS_UPTIME, Ticks(0)), Varbind(SNMP_TRAP, Name(TRAP_PREFIX + [7]))]);
            && WellFormed(p) && V2ToV1(p).Some?
            && var q := V2ToV1(p).value;
            && q.trapType == ENTERPRISE_SPECIFIC && q.enterprise == []
            && V1ToV2(q).Some? && WellFormed(V1ToV2(q).value) && V2ToV1(V1ToV2(q).value) == None
  {
    var vars := [Varbind(SYS_UPTIME, Ticks(0)), Varbind(SNMP_TRAP, Name(TRAP_PREFIX + [7]))];
    var p := Pdu(Trap2, 0, 0, 0, [], [0, 0, 0, 0], None, vars);
    NamesDiffer();
    StandardOid(6);
    assert WellFormed(p) && vars[2..] == [];
    var q := V2ToV1(p).value;
    RoundTripV1(q);
    TypedNames(V1ToV2(q).value.variables);
    BuiltOid([], 0);
    assert V1ToV2(q).value.variables[1].value.oid == [0, 0];
  }

  /** An enterprise with which an undefined standard trap still survives. */
  predicate Unmistakable(e: Oid) {
    1 <= |e| <= MAX_OID_LEN - 2 && (Prefix(TRAP_PREFIX, e) ==> |e| > 9 && e[9] == ENTERPRISE_SPECIFIC + 1)
  }

  lemma TypedRest(vars: seq<Varbind>)
    requires Typed(vars) && |vars| >= 2
    ensures Typed(vars[2..])
  {
    assert forall v | v in vars[2..] :: v in vars;
  }

  lemma AddressSize(vars: seq<Varbind>, default: seq<nat>)
    requires Typed(vars) && |default| == 4
    ensures |AddressOr(vars, AGENT_ADDR, default)| == 4
  {
    if Has(vars, AGENT_ADDR) {
      assert vars[Find(vars, AGENT_ADDR)] in vars;
    }
  }

  /** The enterprise cut off a trap OID is below snmpTraps only if the OID is. */
  lemma Stripped(oid: Oid)
    ensures |oid| > 2 && !Prefix(TRAP_PREFIX, oid) ==>
              var e := oid[..|oid| - 1];
              var f := if e[|e| - 1] == 0 then e[..|e| - 1] else e;
              f != [] && !Prefix(TRAP_PREFIX, f)
  {
    if |oid| > 2 {
      var e := oid[..|oid| - 1];
      var f := if e[|e| - 1] == 0 then e[..|e| - 1] else e;
      if Prefix(TRAP_PREFIX, f) {
        assert oid[..9] == f[..9];
      }
    }
  }
}
