/** The data the reservation operations handle: the `Reservation` record,
    the generic command `Request` they hand to the client's transport, the
    errors they return, and the abstract outcome of one exchange with the
    control agent. */
module Kea {

  /** A schema-less JSON value, for the `map[string]any` user context and the
      option entries the model carries without looking inside. Numbers are
      kept as integers; floating point is not modelled. */
  datatype Any =
    | Null
    | Bool(b: bool)
    | Number(n: int)
    | Text(s: string)
    | List(items: seq<Any>)
    | Object(fields: map<string, Any>)

  /** One `option-data` entry. Its schema is defined in a file that is not
      part of this model; the operations copy it unchanged. */
  datatype OptionData = OptionData(payload: Any)

  /** A host reservation in Kea: a client identified by its hardware address
      bound to a fixed IP address inside a subnet. */
  datatype Reservation = Reservation(
    bootFileName: string,
    clientID: string,
    circuitID: string,
    duid: string,
    flexID: string,
    ipAddress: string,
    hwAddress: string,
    hostname: string,
    nextServer: string,
    optionData: seq<OptionData>,
    subnetID: int,
    userContext: map<string, Any>)

  /** The values a request's `arguments` map holds in these operations. */
  datatype Arg = Int(i: int) | Str(s: string) | Record(res: Reservation)

  /** The generic command envelope: the remote command name, the services it
      is addressed to, and its arguments. */
  datatype Request = Request(command: string, service: seq<string>, arguments: map<string, Arg>)

  /** What an operation can return as its `error`. The three validation
      errors are raised locally; `Upstream` is an error handed back by the
      client's `make` or `do`, identified by its `Error()` text. */
  datatype Error = ErrInvalidIP | ErrInvalidMAC | ErrInvalidSubnet | Upstream(message: string)
  {
    predicate IsValidation() { !Upstream? }
  }

  /** How one exchange with the control agent ended: `make` failed to build
      the HTTP request, `do` failed (transport, decoding, or a non-zero
      result status), or `do` succeeded and decoded the reply into a `T`. */
  datatype Outcome<+T> = MakeFailed(message: string) | DoFailed(message: string) | Decoded(value: T)

  /** The request an operation handed to the transport, and the target host. */
  datatype Exchange = Exchange(host: string, request: Request)

  /** An operation's return value together with every exchange it started:
      an empty `sent` means the transport was never called. */
  datatype Call<+T> = Call(result: T, sent: seq<Exchange>)

  /** The decode target of `reservation-get-all`: the `hosts` list of the
      reply's arguments (empty when the key is absent). */
  datatype HostsReply = HostsReply(hosts: seq<Reservation>)

  const Dhcp4Services: seq<string> := ["dhcp4"]

  const CmdGetAll := "reservation-get-all"
  const CmdGet := "reservation-get"
  const CmdAdd := "reservation-add"
  const CmdUpdate := "reservation-update"
  const CmdDel := "reservation-del"

  const KeySubnetID := "subnet-id"
  const KeyIPAddress := "ip-address"
  const KeyIdentifierType := "identifier-type"
  const KeyIdentifier := "identifier"
  const KeyReservation := "reservation"

  const HwAddressIdentifier := "hw-address"

  /** The marker `ReservationGet` looks for in an error's text. */
  const NotFoundMarker := "not found"
}
