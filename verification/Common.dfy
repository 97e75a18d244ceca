/** Types shared by every part of the daemon model. */
module Common {

  datatype Option<+T> = None | Some(value: T)

  type uint8 = x: int | 0 <= x < 0x100
  type uint16 = x: int | 0 <= x < 0x1_0000
  type uint32 = x: int | 0 <= x < 0x1_0000_0000
  type uint128 = x: int | 0 <= x < 0x1_0000_0000_0000_0000_0000_0000_0000_0000

  /** An address as `net.IP.String` and `net.IP.To4` see it: a 16-byte form that
      wraps an IPv4 address is that IPv4 address. Everywhere but on the wire and in
      prefix matching it is only a map key. */
  datatype IP = V4(v4: uint32) | V6(v6: uint128)

  /** A time or a duration in nanoseconds. */
  type Nanos = int

  /** A loop over the keys of a Go map keeps the keys still to come in `todo` and may
      take any of them next. */
  lemma NextKey<T>(all: set<T>, todo: set<T>, k: T)
    requires k in todo && todo <= all
    ensures k in all && k !in all - todo
    ensures todo - {k} <= all && all - (todo - {k}) == all - todo + {k}
  {}

  lemma NoKeysLeft<T>(all: set<T>, todo: set<T>)
    requires todo == {}
    ensures all - todo == all
  {}

  /** The same for a loop that follows another one, which already saw `base`. */
  lemma NextKeyOver<T>(base: set<T>, all: set<T>, todo: set<T>, k: T)
    requires k in todo && todo <= all
    ensures base + (all - (todo - {k})) == base + (all - todo) + {k}
    ensures k in base ==> base + (all - (todo - {k})) == base + (all - todo)
  {}
}
