/** The reservation operations of the Kea control-agent client: each one
    validates its identifying fields, canonicalises them, builds a command for
    the `dhcp4` service, hands it to the transport, and shapes the outcome.
    Building and shaping are separate pure functions; the client operations
    compose them around an abstract transport `send`, which stands for the
    client's `make` followed by `do`. */
module Reservations {
  import opened Wrappers
  import opened NetLib
  import opened Kea
  import Strings

  // ---------------------------------------------------------------------------
  // Shared steps

  /** The single rule that decides whether an error reports a missing entry:
      its text contains the marker "not found". */
  function IsNotFound(message: string): (r: bool)
    ensures r <==> Strings.Occurs(NotFoundMarker, message)
  {
    Strings.Contains(message, NotFoundMarker)
  }

  /** The validation `ReservationAdd` and `ReservationUpdate` share: the IP
      address must parse (checked first), then the hardware address must
      parse, and the record that goes on the wire carries the canonical form
      of the hardware address. */
  function CanonicalReservation(net: Net, res: Reservation): (r: Result<Reservation, Error>)
    ensures !net.ValidIP(res.ipAddress) ==> r == Failure(ErrInvalidIP)
    ensures net.ValidIP(res.ipAddress) && !net.ValidMAC(res.hwAddress) ==> r == Failure(ErrInvalidMAC)
    ensures r.Success? <==> net.ValidIP(res.ipAddress) && net.ValidMAC(res.hwAddress)
    ensures r.Success? ==> r.value.hwAddress == net.parseMAC(res.hwAddress).value
    ensures r.Success? ==> r.value.(hwAddress := res.hwAddress) == res
  {
    if !net.ValidIP(res.ipAddress) then
      Failure(ErrInvalidIP)
    else
      match net.parseMAC(res.hwAddress)
      case Some(mac) => Success(res.(hwAddress := mac))
      case None => Failure(ErrInvalidMAC)
  }

  /** A command for the `dhcp4` service whose only argument is a whole
      reservation record. */
  function ReservationCommand(command: string, res: Reservation): (r: Request)
    ensures r.command == command && r.service == Dhcp4Services
    ensures r.arguments.Keys == {KeyReservation}
    ensures r.arguments[KeyReservation] == Record(res)
  {
    Request(command, Dhcp4Services, map[KeyReservation := Record(res)])
  }

  /** How the mutating operations shape the outcome: success carries no
      value, any error from `make` or `do` is returned unchanged. */
  function ShapeDone<T>(o: Outcome<T>): (r: Option<Error>)
    ensures r.None? <==> o.Decoded?
    ensures r.Some? ==> r.value == Upstream(o.message)
  {
    match o
    case Decoded(_) => None
    case MakeFailed(m) => Some(Upstream(m))
    case DoFailed(m) => Some(Upstream(m))
  }

  // ---------------------------------------------------------------------------
  // reservation-get-all

  /** The `reservation-get-all` command: the subnet id is its only argument;
      there is nothing to validate. */
  function BuildGetAll(subnetID: int): (r: Request)
    ensures r.command == CmdGetAll && r.service == Dhcp4Services
    ensures r.arguments.Keys == {KeySubnetID}
    ensures r.arguments[KeySubnetID] == Int(subnetID)
  {
    Request(CmdGetAll, Dhcp4Services, map[KeySubnetID := Int(subnetID)])
  }

  /** The `hosts` list of a successful reply, unchanged and in order; any
      error, including one that reports a missing entry, is returned
      unchanged with no list. */
  function ShapeGetAll(o: Outcome<HostsReply>): (r: Result<seq<Reservation>, Error>)
    ensures r.Success? <==> o.Decoded?
    ensures o.Decoded? ==> |r.value| == |o.value.hosts|
    ensures o.Decoded? ==> forall i :: 0 <= i < |r.value| ==> r.value[i] == o.value.hosts[i]
    ensures r.Failure? ==> r.error == Upstream(o.message)
  {
    match o
    case Decoded(reply) => Success(reply.hosts)
    case MakeFailed(m) => Failure(Upstream(m))
    case DoFailed(m) => Failure(Upstream(m))
  }

  /** `ReservationGetAll`: always exactly one exchange. */
  function ReservationGetAll(send: (string, Request) -> Outcome<HostsReply>, hostname: string, subnetID: int)
    : (c: Call<Result<seq<Reservation>, Error>>)
    ensures c.sent == [Exchange(hostname, BuildGetAll(subnetID))]
    ensures c.result == ShapeGetAll(send(hostname, c.sent[0].request))
    ensures c.result.Failure? ==> !c.result.error.IsValidation()
  {
    var req := BuildGetAll(subnetID);
    Call(ShapeGetAll(send(hostname, req)), [Exchange(hostname, req)])
  }

  // ---------------------------------------------------------------------------
  // reservation-get

  /** The `reservation-get` command. `ipOrMac` is first tried as an IP
      address, then as a hardware address; a string that is neither is not
      rejected, and the command then carries the subnet id alone. */
  function BuildGet(net: Net, ipOrMac: string, subnetID: int): (r: Request)
    ensures r.command == CmdGet && r.service == Dhcp4Services
    ensures KeySubnetID in r.arguments && r.arguments[KeySubnetID] == Int(subnetID)
    ensures KeyIPAddress in r.arguments <==> net.ValidIP(ipOrMac)
    ensures KeyIPAddress in r.arguments ==>
      && r.arguments[KeyIPAddress] == Str(net.parseIP(ipOrMac).value)
      && r.arguments.Keys == {KeySubnetID, KeyIPAddress}
    ensures KeyIdentifier in r.arguments <==> !net.ValidIP(ipOrMac) && net.ValidMAC(ipOrMac)
    ensures KeyIdentifier in r.arguments ==>
      && r.arguments.Keys == {KeySubnetID, KeyIdentifierType, KeyIdentifier}
      && r.arguments[KeyIdentifierType] == Str(HwAddressIdentifier)
      && r.arguments[KeyIdentifier] == Str(net.parseMAC(ipOrMac).value)
    ensures !net.ValidIP(ipOrMac) && !net.ValidMAC(ipOrMac) ==> r.arguments.Keys == {KeySubnetID}
  {
    var base := map[KeySubnetID := Int(subnetID)];
    var arguments :=
      match net.parseIP(ipOrMac)
      case Some(ip) => base[KeyIPAddress := Str(ip)]
      case None =>
        match net.parseMAC(ipOrMac)
        case Some(mac) => base[KeyIdentifierType := Str(HwAddressIdentifier)][KeyIdentifier := Str(mac)]
        case None => base;
    Request(CmdGet, Dhcp4Services, arguments)
  }

  /** A reply decoded into a reservation is that reservation; an error from
      `do` whose text reports a missing entry is an absent reservation and
      no error; every other error, and every error from `make`, is returned
      unchanged with no reservation. */
  function ShapeGet(o: Outcome<Reservation>): (r: Result<Option<Reservation>, Error>)
    ensures r == Success(None) <==> o.DoFailed? && Strings.Occurs(NotFoundMarker, o.message)
    ensures (r.Success? && r.value.Some?) <==> o.Decoded?
    ensures o.Decoded? ==> r.value.value == o.value
    ensures r.Failure? <==> o.MakeFailed? || (o.DoFailed? && !Strings.Occurs(NotFoundMarker, o.message))
    ensures r.Failure? ==> r.error == Upstream(o.message)
  {
    match o
    case Decoded(res) => Success(Some(res))
    case MakeFailed(m) => Failure(Upstream(m))
    case DoFailed(m) => if IsNotFound(m) then Success(None) else Failure(Upstream(m))
  }

  /** `ReservationGet`: always exactly one exchange, never a validation
      error. */
  function ReservationGet(net: Net, send: (string, Request) -> Outcome<Reservation>,
                          hostname: string, ipOrMac: string, subnetID: int)
    : (c: Call<Result<Option<Reservation>, Error>>)
    ensures |c.sent| == 1 && c.sent[0] == Exchange(hostname, BuildGet(net, ipOrMac, subnetID))
    ensures c.result == ShapeGet(send(hostname, c.sent[0].request))
    ensures c.result.Failure? ==> !c.result.error.IsValidation()
  {
    var req := BuildGet(net, ipOrMac, subnetID);
    Call(ShapeGet(send(hostname, req)), [Exchange(hostname, req)])
  }

  // ---------------------------------------------------------------------------
  // reservation-add

  /** The `reservation-add` command: the IP address must parse, then the
      hardware address must parse; the subnet id is not checked. The record
      sent is the caller's with the hardware address canonicalised and every
      other field untouched. */
  function BuildAdd(net: Net, res: Reservation): (r: Result<Request, Error>)
    ensures !net.ValidIP(res.ipAddress) ==> r == Failure(ErrInvalidIP)
    ensures net.ValidIP(res.ipAddress) && !net.ValidMAC(res.hwAddress) ==> r == Failure(ErrInvalidMAC)
    ensures r.Success? <==> net.ValidIP(res.ipAddress) && net.ValidMAC(res.hwAddress)
    ensures r.Success? ==>
      && r.value.command == CmdAdd
      && r.value.service == Dhcp4Services
      && r.value.arguments.Keys == {KeyReservation}
      && r.value.arguments[KeyReservation] == Record(res.(hwAddress := net.parseMAC(res.hwAddress).value))
  {
    match CanonicalReservation(net, res)
    case Failure(e) => Failure(e)
    case Success(canonical) => Success(ReservationCommand(CmdAdd, canonical))
  }

  /** `ReservationAdd`: the transport is called exactly when validation
      passes, and a validation error is returned exactly when it is not. */
  function ReservationAdd<T>(net: Net, send: (string, Request) -> Outcome<T>, hostname: string, res: Reservation)
    : (c: Call<Option<Error>>)
    ensures c.sent == [] <==> (c.result.Some? && c.result.value.IsValidation())
    ensures c.sent == [] <==> BuildAdd(net, res).Failure?
    ensures c.sent == [] ==> c.result == Some(BuildAdd(net, res).error)
    ensures c.sent != [] ==> c.sent == [Exchange(hostname, BuildAdd(net, res).value)]
    ensures c.sent != [] ==> c.result == ShapeDone(send(hostname, c.sent[0].request))
    ensures c.result.None? <==> c.sent != [] && send(hostname, c.sent[0].request).Decoded?
  {
    match BuildAdd(net, res)
    case Failure(e) => Call(Some(e), [])
    case Success(req) => Call(ShapeDone(send(hostname, req)), [Exchange(hostname, req)])
  }

  // ---------------------------------------------------------------------------
  // reservation-update

  /** The `reservation-update` command: the IP address must parse, then the
      hardware address, then the subnet id must be non-zero. The record sent
      is the caller's with the hardware address canonicalised. */
  function BuildUpdate(net: Net, res: Reservation): (r: Result<Request, Error>)
    ensures !net.ValidIP(res.ipAddress) ==> r == Failure(ErrInvalidIP)
    ensures net.ValidIP(res.ipAddress) && !net.ValidMAC(res.hwAddress) ==> r == Failure(ErrInvalidMAC)
    ensures r == Failure(ErrInvalidSubnet) <==>
      net.ValidIP(res.ipAddress) && net.ValidMAC(res.hwAddress) && res.subnetID == 0
    ensures r.Success? <==> net.ValidIP(res.ipAddress) && net.ValidMAC(res.hwAddress) && res.subnetID != 0
    ensures r.Success? ==>
      && r.value.command == CmdUpdate
      && r.value.service == Dhcp4Services
      && r.value.arguments.Keys == {KeyReservation}
      && r.value.arguments[KeyReservation] == Record(res.(hwAddress := net.parseMAC(res.hwAddress).value))
  {
    match CanonicalReservation(net, res)
    case Failure(e) => Failure(e)
    case Success(canonical) =>
      if canonical.subnetID == 0 then Failure(ErrInvalidSubnet)
      else Success(ReservationCommand(CmdUpdate, canonical))
  }

  /** `ReservationUpdate`: the transport is called exactly when validation
      passes, and a validation error is returned exactly when it is not. */
  function ReservationUpdate<T>(net: Net, send: (string, Request) -> Outcome<T>, hostname: string, res: Reservation)
    : (c: Call<Option<Error>>)
    ensures c.sent == [] <==> (c.result.Some? && c.result.value.IsValidation())
    ensures c.sent == [] <==> BuildUpdate(net, res).Failure?
    ensures c.sent == [] ==> c.result == Some(BuildUpdate(net, res).error)
    ensures c.sent != [] ==> c.sent == [Exchange(hostname, BuildUpdate(net, res).value)]
    ensures c.sent != [] ==> c.result == ShapeDone(send(hostname, c.sent[0].request))
    ensures c.result.None? <==> c.sent != [] && send(hostname, c.sent[0].request).Decoded?
  {
    match BuildUpdate(net, res)
    case Failure(e) => Call(Some(e), [])
    case Success(req) => Call(ShapeDone(send(hostname, req)), [Exchange(hostname, req)])
  }

  // ---------------------------------------------------------------------------
  // reservation-del

  /** The `reservation-del` command: the address must parse as an IP, but
      the command carries the caller's text as given, not its canonical
      form. */
  function BuildDel(net: Net, ipAddress: string, subnetID: int): (r: Result<Request, Error>)
    ensures r.Failure? <==> !net.ValidIP(ipAddress)
    ensures r.Failure? ==> r.error == ErrInvalidIP
    ensures r.Success? ==>
      && r.value.command == CmdDel
      && r.value.service == Dhcp4Services
      && r.value.arguments.Keys == {KeySubnetID, KeyIPAddress}
      && r.value.arguments[KeySubnetID] == Int(subnetID)
      && r.value.arguments[KeyIPAddress] == Str(ipAddress)
  {
    if !net.ValidIP(ipAddress) then Failure(ErrInvalidIP)
    else Success(Request(CmdDel, Dhcp4Services, map[KeySubnetID := Int(subnetID), KeyIPAddress := Str(ipAddress)]))
  }

  /** `ReservationDel`: the transport is called exactly when the address
      parses, and `ErrInvalidIP` is returned exactly when it does not. */
  function ReservationDel<T>(net: Net, send: (string, Request) -> Outcome<T>,
                             hostname: string, ipAddress: string, subnetID: int)
    : (c: Call<Option<Error>>)
    ensures c.sent == [] <==> c.result == Some(ErrInvalidIP)
    ensures c.sent == [] <==> !net.ValidIP(ipAddress)
    ensures c.sent != [] ==> c.sent == [Exchange(hostname, BuildDel(net, ipAddress, subnetID).value)]
    ensures c.sent != [] ==> c.result == ShapeDone(send(hostname, c.sent[0].request))
    ensures c.result.None? <==> c.sent != [] && send(hostname, c.sent[0].request).Decoded?
  {
    match BuildDel(net, ipAddress, subnetID)
    case Failure(e) => Call(Some(e), [])
    case Success(req) => Call(ShapeDone(send(hostname, req)), [Exchange(hostname, req)])
  }
}
