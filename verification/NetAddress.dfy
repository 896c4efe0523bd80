/** IP addresses, and how the standard library writes and reads them: a parameter of the
    models, with the laws they need. */
module NetAddress {
  import opened Text

  const TWO_TO_32: nat := 0x1_0000_0000
  const TWO_TO_128: nat := 0x1_0000_0000_0000_0000_0000_0000_0000_0000

  datatype RawAddr = Addr(v6: bool, value: nat)

  function BitLen(a: RawAddr): nat { if a.v6 then 128 else 32 }

  type Addr = a: RawAddr | a.value < (if a.v6 then TWO_TO_128 else TWO_TO_32) witness Addr(false, 0)

  /** How netip writes and reads addresses without a zone. */
  datatype Net = Net(show: Addr -> string, read: string -> Option<Addr>)

  ghost predicate Lawful(net: Net)
  {
    forall a: Addr :: net.read(net.show(a)) == Some(a) && '/' !in net.show(a)
  }
}
