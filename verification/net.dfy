/** The two parsers the reservation operations borrow from Go's `net`
    package. Their internals belong to the standard library and are not
    modelled: a `Net` value is any pair of parsers, and every property of the
    operations holds for all of them. */
module NetLib {
  import opened Wrappers

  /** `parseIP(s)` is `Some(net.ParseIP(s).String())` when `net.ParseIP(s)`
      is not nil, and `None` when it is nil. `parseMAC(s)` is
      `Some(mac.String())` when `net.ParseMAC(s)` returns no error, and
      `None` otherwise. The text inside `Some` is the canonical form. */
  datatype Net = Net(parseIP: string -> Option<string>, parseMAC: string -> Option<string>)
  {
    predicate ValidIP(s: string) { parseIP(s).Some? }

    predicate ValidMAC(s: string) { parseMAC(s).Some? }

    /** Canonical text forms are fixed points of their parser: parsing the
        canonical form of an address gives that same form back. Go's
        `ParseIP`/`String` and `ParseMAC`/`String` pairs behave this way;
        lemmas that rely on it say so in their requires. */
    ghost predicate Stable()
    {
      && (forall s :: parseIP(s).Some? ==> parseIP(parseIP(s).value) == parseIP(s))
      && (forall s :: parseMAC(s).Some? ==> parseMAC(parseMAC(s).value) == parseMAC(s))
    }
  }
}
