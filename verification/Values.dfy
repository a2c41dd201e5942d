/** Typed SNMP values, bindings and error codes
    (crates/netsnmp/src/value.rs, crates/netsnmp/src/pdu.rs). */
module Values {
  import opened Oids

  datatype Option<+T> = None | Some(value: T)

  /** The next number of a wrapping 32-bit counter. */
  function WrappingNext(n: int): u32 {
    (n + 1) % 0x1_0000_0000
  }

  type byte = x: int | 0 <= x < 0x100
  type i32 = x: int | -0x8000_0000 <= x < 0x8000_0000
  type i64 = x: int | -0x8000_0000_0000_0000 <= x < 0x8000_0000_0000_0000
  type u64 = x: int | 0 <= x < 0x1_0000_0000_0000_0000

  datatype Value =
    | Integer(i: i64)
    | OctetString(octets: seq<byte>)
    | ObjectId(oid: Oid)
    | IpAddress(a: byte, b: byte, c: byte, d: byte)
    | Counter32(c32: u32)
    | Gauge32(g32: u32)
    | TimeTicks(ticks: u32)
    | Opaque(bytes: seq<byte>)
    | Counter64(c64: u64)
    | Null
    | NoSuchObject
    | NoSuchInstance
    | EndOfMibView

  /** The three SNMPv2 exceptions, which never stand for stored data. */
  predicate IsException(v: Value) {
    v.NoSuchObject? || v.NoSuchInstance? || v.EndOfMibView?
  }

  datatype VarBind = VarBind(oid: Oid, value: Value)

  /** The error statuses the registry and its handlers produce. */
  datatype ErrorStatus =
    | NoError
    | GenErr
    | NoAccess
    | WrongType
    | NoCreation
    | UndoFailed
    | NotWritable

  function Code(s: ErrorStatus): i64 {
    match s
    case NoError => 0
    case GenErr => 5
    case NoAccess => 6
    case WrongType => 7
    case NoCreation => 11
    case UndoFailed => 15
    case NotWritable => 17
  }
}
