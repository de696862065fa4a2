/** Properties that relate the reservation operations to each other and to
    the parsers they rely on. */
module ReservationProperties {
  import opened Wrappers
  import opened NetLib
  import opened Kea
  import opened Reservations
  import Strings

  /** Update is Add with one more check: it accepts exactly the records Add
      accepts whose subnet id is non-zero, rejects the rest with Add's error
      or `ErrInvalidSubnet`, and sends the same arguments under its own
      command name. */
  lemma UpdateIsAddWithSubnetCheck(net: Net, res: Reservation)
    ensures BuildUpdate(net, res).Success? <==> BuildAdd(net, res).Success? && res.subnetID != 0
    ensures BuildAdd(net, res).Failure? ==> BuildUpdate(net, res) == BuildAdd(net, res)
    ensures BuildAdd(net, res).Success? && res.subnetID == 0 ==> BuildUpdate(net, res) == Failure(ErrInvalidSubnet)
    ensures BuildUpdate(net, res).Success? ==>
      BuildUpdate(net, res).value == BuildAdd(net, res).value.(command := CmdUpdate)
  {
  }

  /** Add's verdict does not depend on the subnet id: changing it never
      turns an accepted record into a rejected one or back. */
  lemma AddIgnoresSubnetID(net: Net, res: Reservation, subnetID: int)
    ensures BuildAdd(net, res.(subnetID := subnetID)).Success? <==> BuildAdd(net, res).Success?
    ensures BuildAdd(net, res).Failure? ==>
      BuildAdd(net, res.(subnetID := subnetID)) == BuildAdd(net, res)
  {
  }

  /** Canonicalisation is idempotent: resubmitting the record an Add put on
      the wire builds the very same request. */
  lemma AddResubmitsCanonical(net: Net, res: Reservation)
    requires net.Stable()
    requires BuildAdd(net, res).Success?
    ensures BuildAdd(net, BuildAdd(net, res).value.arguments[KeyReservation].res) == BuildAdd(net, res)
  {
  }

  /** The same for Update. */
  lemma UpdateResubmitsCanonical(net: Net, res: Reservation)
    requires net.Stable()
    requires BuildUpdate(net, res).Success?
    ensures BuildUpdate(net, BuildUpdate(net, res).value.arguments[KeyReservation].res) == BuildUpdate(net, res)
  {
  }

  /** Looking a reservation up by the canonical form of its IP address
      builds the same request as looking it up by the caller's text. */
  lemma GetByCanonicalIP(net: Net, ipOrMac: string, subnetID: int)
    requires net.Stable()
    requires net.ValidIP(ipOrMac)
    ensures BuildGet(net, net.parseIP(ipOrMac).value, subnetID) == BuildGet(net, ipOrMac, subnetID)
  {
  }

  /** The same for a hardware address, provided its canonical form is not
      itself read as an IP address (the IP reading wins). */
  lemma GetByCanonicalMAC(net: Net, ipOrMac: string, subnetID: int)
    requires net.Stable()
    requires !net.ValidIP(ipOrMac) && net.ValidMAC(ipOrMac)
    requires !net.ValidIP(net.parseMAC(ipOrMac).value)
    ensures BuildGet(net, net.parseMAC(ipOrMac).value, subnetID) == BuildGet(net, ipOrMac, subnetID)
  {
  }

  /** When the text reads both as an IP and as a hardware address, Get
      looks the reservation up by IP and sends no identifier. A corollary of
      `BuildGet`'s contract, spelled out for the ambiguous case. */
  lemma GetPrefersIP(net: Net, ipOrMac: string, subnetID: int)
    requires net.ValidIP(ipOrMac) && net.ValidMAC(ipOrMac)
    ensures BuildGet(net, ipOrMac, subnetID).arguments.Keys == {KeySubnetID, KeyIPAddress}
    ensures KeyIdentifier !in BuildGet(net, ipOrMac, subnetID).arguments
  {
  }

  /** Get canonicalises the address and Del does not: for a valid address
      the two commands carry the same arguments exactly when the caller's
      text is already canonical. */
  lemma DelMatchesGetIffCanonical(net: Net, ipAddress: string, subnetID: int)
    requires net.ValidIP(ipAddress)
    ensures BuildDel(net, ipAddress, subnetID).value.arguments == BuildGet(net, ipAddress, subnetID).arguments
      <==> net.parseIP(ipAddress) == Some(ipAddress)
  {
  }

  /** Del and Get agree on which addresses count as IP addresses: Del
      rejects exactly the texts for which Get sends no `ip-address`. */
  lemma DelRejectsWhatGetCannotAddress(net: Net, ipAddress: string, subnetID: int)
    ensures BuildDel(net, ipAddress, subnetID).Failure? <==> KeyIPAddress !in BuildGet(net, ipAddress, subnetID).arguments
  {
  }

  /** Only the single-fetch operation treats a "not found" error from `do`
      as an absent result: the list operation returns it as an error. */
  lemma NotFoundIsAbsentOnlyForGet(message: string)
    requires Strings.Occurs(NotFoundMarker, message)
    ensures ShapeGet(DoFailed(message)) == Success(None)
    ensures ShapeGetAll(DoFailed(message)) == Failure(Upstream(message))
    ensures ShapeDone<Reservation>(DoFailed(message)) == Some(Upstream(message))
  {
  }

  /** An error from `make` is never read as "not found", whatever its text.
      A corollary of `ShapeGet`'s contract, spelled out for the `make` case. */
  lemma MakeErrorIsNeverAbsent(message: string)
    ensures ShapeGet(MakeFailed(message)) == Failure(Upstream(message))
  {
  }

  /** The classification rule, checked on the marker itself and on an
      error text that surrounds it. */
  lemma NotFoundMarkerDetected(prefix: string, suffix: string)
    ensures IsNotFound(prefix + NotFoundMarker + suffix)
  {
    var m := prefix + NotFoundMarker + suffix;
    assert m[|prefix|..|prefix| + |NotFoundMarker|] == NotFoundMarker;
    assert Strings.OccursAt(NotFoundMarker, m, |prefix|);
  }

  /** A rejected Add, Update or Del does not depend on the transport at
      all: any two transports give the same call, with nothing sent. */
  lemma ValidationIsTransportIndependent<T>(net: Net, s1: (string, Request) -> Outcome<T>,
                                            s2: (string, Request) -> Outcome<T>, hostname: string, res: Reservation,
                                            ipAddress: string, subnetID: int)
    requires BuildUpdate(net, res).Failure?
    ensures ReservationUpdate(net, s1, hostname, res) == ReservationUpdate(net, s2, hostname, res)
    ensures ReservationUpdate(net, s1, hostname, res).sent == []
    ensures BuildAdd(net, res).Failure? ==>
      ReservationAdd(net, s1, hostname, res) == ReservationAdd(net, s2, hostname, res)
    ensures BuildDel(net, ipAddress, subnetID).Failure? ==>
      ReservationDel(net, s1, hostname, ipAddress, subnetID) == ReservationDel(net, s2, hostname, ipAddress, subnetID)
  {
  }

  /** Get-all asks for what a Get with an unusable lookup text asks for:
      when the text parses neither as an IP nor as a hardware address, both
      commands carry the subnet id alone, and they differ only in name. */
  lemma GetAllIsUnqualifiedGet(net: Net, ipOrMac: string, subnetID: int)
    requires !net.ValidIP(ipOrMac) && !net.ValidMAC(ipOrMac)
    ensures BuildGetAll(subnetID).arguments == BuildGet(net, ipOrMac, subnetID).arguments
    ensures BuildGetAll(subnetID) == BuildGet(net, ipOrMac, subnetID).(command := CmdGetAll)
  {
  }
}
