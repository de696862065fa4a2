# Kea reservation operations, modelled in Dafny

This project models the reservation operations of the go-kea client
(`pkg/reservation.go`). go-kea drives the Kea DHCP server's control agent by
sending JSON commands to it over HTTP. There are five operations:
`ReservationGetAll`, `ReservationGet`, `ReservationAdd`, `ReservationUpdate`
and `ReservationDel`. Each one follows the same pattern:

1. validate the caller's identifying fields in a fixed order;
2. canonicalise the hardware address;
3. build a command for the `dhcp4` service;
4. hand the command to the client's transport (`make` followed by `do`);
5. shape the outcome.

Steps 1–3 and step 5 are pure functions (`Reservations.Build*`,
`Reservations.Shape*`). The client operations (`Reservations.Reservation*`)
put those functions around an abstract transport `send`. They return a `Call`:
the result, plus the list of exchanges handed to the transport. An empty list
means the transport was never called.

Files:

- `wrappers.dfy`: `Option` and `Result`.
- `strings.dfy`: `Strings.Contains`, the substring search Go's
  `strings.Contains` performs, proved equal to a declarative "occurs at some
  offset" predicate.
- `net.dfy`: `NetLib.Net`, the pair of parsers taken from Go's `net` package.
  Each parser is a parameter: `parseIP(s)` is `Some` of the canonical text
  `net.ParseIP(s).String()`, or `None` when `ParseIP` returns nil.
  `parseMAC` is the same for `net.ParseMAC`. Their internals are not
  modelled, so every property here holds for any parser. A few lemmas also
  assume `Stable()`: re-parsing a canonical form gives that same form back.
- `model.dfy`: module `Kea`. It holds the `Reservation` record, the `Request`
  command, the errors, the transport `Outcome`, and the protocol's fixed
  strings.
- `reservation.dfy`: module `Reservations`, the five operations.
- `properties.dfy`: module `ReservationProperties`, lemmas that relate the
  operations to one another.

Four behaviours of the code a reader may not expect:

- `ReservationGetAll` does not turn a "not found" error into an empty list.
  It returns the error (`ReservationProperties.NotFoundIsAbsentOnlyForGet`).
- `ReservationDel` checks that the address parses as an IP. It then sends the
  caller's text as given, not the canonical form
  (`ReservationProperties.DelMatchesGetIffCanonical`).
- `ReservationGet` applies the "not found" test only to errors from `do`. An
  error from `make` is returned even when its text contains the marker.
- `ReservationGet` never rejects its input. A text that parses neither as an
  IP nor as a MAC produces a command that carries only the subnet id.

## Model

| member | source | states |
|---|---|---|
| Strings.Contains | pkg/reservation.go:69 | the substring test used on error texts holds exactly when the pattern occurs at some offset of the text |
| Reservations.IsNotFound | pkg/reservation.go:69 | an error text is classified "not found" exactly when "not found" occurs in it |
| Reservations.CanonicalReservation | pkg/reservation.go:79-86 | an unparseable IP gives ErrInvalidIP whatever the MAC; a valid IP with an unparseable MAC gives ErrInvalidMAC; otherwise the record is unchanged except that its hardware address becomes the canonical MAC text |
| Reservations.ShapeDone | pkg/reservation.go:94-105 | a mutating operation succeeds with no value exactly when `do` decoded a reply; otherwise it returns the `make`/`do` error unchanged |
| Reservations.BuildGetAll | pkg/reservation.go:29-33 | get-all sends "reservation-get-all" to ["dhcp4"] with the subnet id as its only argument |
| Reservations.ShapeGetAll | pkg/reservation.go:35-46 | on success the result is the reply's hosts list, element by element and in order; any error, "not found" included, is returned unchanged with no list |
| Reservations.ReservationGetAll | pkg/reservation.go:28-47 | get-all makes exactly one exchange, carrying BuildGetAll's request to the caller's host; its result is ShapeGetAll of that exchange's outcome, never a validation error |
| Reservations.BuildGet | pkg/reservation.go:51-61 | a text that parses as an IP adds only ip-address with its canonical form; otherwise a text that parses as a MAC adds only identifier-type "hw-address" and identifier with its canonical form; otherwise only subnet-id is sent; the IP reading takes priority |
| Reservations.ShapeGet | pkg/reservation.go:63-74 | the result is absent with no error exactly when `do` failed with a text containing "not found"; a decoded reply is returned; every other error comes back unchanged with no reservation |
| Reservations.ReservationGet | pkg/reservation.go:50-75 | get makes exactly one exchange and never returns a validation error |
| Reservations.BuildAdd | pkg/reservation.go:78-92 | IP checked before MAC, subnet id never checked; an accepted record yields "reservation-add" to ["dhcp4"] with the single key "reservation" holding the record with only its hardware address canonicalised |
| Reservations.ReservationAdd | pkg/reservation.go:78-106 | the transport is called exactly when validation passes, with BuildAdd's request; a rejection returns BuildAdd's own error (ErrInvalidIP before ErrInvalidMAC); otherwise the `make`/`do` error is returned unchanged, and success means `do` decoded a reply |
| Reservations.BuildUpdate | pkg/reservation.go:109-126 | IP before MAC before subnet; ErrInvalidSubnet exactly when IP and MAC are valid and the subnet id is 0; an accepted record yields "reservation-update" with the single key "reservation" holding the record with only its hardware address canonicalised |
| Reservations.ReservationUpdate | pkg/reservation.go:109-140 | the transport is called exactly when validation passes, with BuildUpdate's request; a rejection returns BuildUpdate's own error (IP, then MAC, then subnet); otherwise the `make`/`do` error is returned unchanged |
| Reservations.BuildDel | pkg/reservation.go:143-152 | ErrInvalidIP exactly when the address does not parse; otherwise "reservation-del" with exactly subnet-id and the caller's raw address text |
| Reservations.ReservationDel | pkg/reservation.go:143-164 | the transport is called exactly when the address parses, with BuildDel's request; ErrInvalidIP is returned exactly when nothing was sent; otherwise the `make`/`do` error is returned unchanged |
| ReservationProperties.UpdateIsAddWithSubnetCheck | pkg/reservation.go:78-126 | Update accepts exactly what Add accepts with a non-zero subnet id, fails with Add's error or ErrInvalidSubnet, and sends Add's request under the update command |
| ReservationProperties.AddIgnoresSubnetID | pkg/reservation.go:78-92 | Add's verdict and error do not depend on the subnet id |
| ReservationProperties.AddResubmitsCanonical | pkg/reservation.go:82-91 | with stable parsers, re-adding the record Add put on the wire builds the identical request (canonicalisation is idempotent) |
| ReservationProperties.UpdateResubmitsCanonical | pkg/reservation.go:113-125 | the same idempotence for Update |
| ReservationProperties.GetByCanonicalIP | pkg/reservation.go:56-57 | with stable parsers, a lookup by the canonical IP builds the same request as a lookup by the caller's text |
| ReservationProperties.GetByCanonicalMAC | pkg/reservation.go:58-60 | the same for a hardware address, provided its canonical form is not read as an IP |
| ReservationProperties.GetPrefersIP | pkg/reservation.go:56-61 | a text that reads both as an IP and as a MAC is looked up by IP, with no identifier |
| ReservationProperties.DelMatchesGetIffCanonical | pkg/reservation.go:56-151 | for a valid address, Del's and Get's arguments coincide exactly when the caller's text is already canonical |
| ReservationProperties.DelRejectsWhatGetCannotAddress | pkg/reservation.go:144-151 | Del rejects exactly the texts for which Get sends no ip-address |
| ReservationProperties.NotFoundIsAbsentOnlyForGet | pkg/reservation.go:43-46 | a "not found" error from `do` is an absent result for Get but an error for GetAll and for the mutating operations |
| ReservationProperties.MakeErrorIsNeverAbsent | pkg/reservation.go:63-66 | an error from `make` is returned by Get whatever its text |
| ReservationProperties.NotFoundMarkerDetected | pkg/reservation.go:69 | any text that contains "not found" is classified as not found |
| ReservationProperties.ValidationIsTransportIndependent | pkg/reservation.go:78-164 | a rejected Update, Add or Del sends nothing and returns the same result whatever the transport |
| ReservationProperties.GetAllIsUnqualifiedGet | pkg/reservation.go:29-61 | when the lookup text parses neither as an IP nor as a MAC, Get's arguments equal get-all's (the subnet id alone) and the two commands differ only in name |
| Reservations.ReservationCommand | pkg/reservation.go:88-92 | the command built for Add and Update goes to ["dhcp4"] with the single key "reservation" holding the given record |

## Left out

- `make`, `do` and all HTTP work: request construction, authentication,
  sending and reading the body. They live in files that are not part of this
  model. They appear only as the abstract `send`, which ends in `MakeFailed`,
  `DoFailed` or `Decoded`.
- JSON encoding and decoding, and the `omitempty` tags on `Reservation`. These
  are done by `encoding/json`. The record is modelled field for field without
  them.
- The internals of `net.ParseIP`, `net.ParseMAC` and their `String()`
  canonical forms. These are standard-library code, so they are parameters.
  As a result, no property names a concrete address. For example, the model
  cannot state that `AA-BB-CC-DD-EE-FF` canonicalises to `aa:bb:cc:dd:ee:ff`.
- `OptionData`, `OptionReq` and the discarded decode targets of Add, Update and
  Del. Their contents are never used. The schema of an `OptionData` entry is
  not part of this model, and the record carries it as an opaque JSON value.
- The text of `ErrInvalidIP`, `ErrInvalidMAC` and `ErrInvalidSubnet`. It is
  defined in a file that is not part of this model. Only `Upstream` errors
  have their text inspected.
- Go's 64-bit `int` for the subnet id is an unbounded integer here. The
  operations only compare it with 0 and copy it, so no wrap-around can occur.
- Numbers inside the schema-less user-context and option values are integers.
  Go's `encoding/json` decodes them as `float64`; floating point is not
  modelled.
- Errors from `make` and `do` are reduced to their `Error()` text
  (`Upstream(message)`). Go returns the error value itself, with its dynamic
  type and any wrapping; the model can only say that the same text comes
  back.
- Error texts are sequences of characters, not bytes. In Go, `err.Error()`
  is a byte string that may hold invalid UTF-8; such texts cannot be
  represented here. For valid UTF-8 the ASCII marker "not found" occurs in
  the characters exactly when it occurs in the bytes.
- Nil versus empty: a nil `hosts` list and a nil user-context map are the
  same as empty ones.
