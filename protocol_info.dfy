/** The wire-protocol revision numbers the item dictionaries are keyed by.
    Their numeric values are not part of this model: they are the fields of
    a `Protocols` record, and what is assumed about their order is stated by
    `Ordered`, which only the lemmas that need it require. */
module ProtocolInfo {

  datatype Protocols = Protocols(
    current: int,
    p1_20_0: int,
    p1_19_80: int,
    p1_19_70: int,
    p1_19_63: int,
    p1_19_60: int,
    p1_19_50: int,
    p1_19_40: int,
    p1_19_10: int,
    p1_19_0: int,
    p1_18_30: int,
    p1_18_10: int)

  /** Later client releases have larger protocol numbers, and the current
      protocol is newer than every revision with a table of its own. */
  predicate Ordered(c: Protocols)
  {
    c.p1_18_10 < c.p1_18_30 < c.p1_19_0 < c.p1_19_10 < c.p1_19_40 < c.p1_19_50
      < c.p1_19_60 < c.p1_19_63 < c.p1_19_70 < c.p1_19_80 < c.p1_20_0 < c.current
  }
}
