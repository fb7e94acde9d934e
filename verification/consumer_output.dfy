/**
 * Where the session daemon tells a consumer to send trace data: a local
 * trace path or a pair of network URIs (control and data) to a relay
 * daemon.
 *
 * The C record keeps both destinations in a union selected by `type`;
 * here the record is kept field for field, and `Dest` gives its meaning:
 * only the member `type` selects is read. `struct lttng_uri` is defined
 * outside the session daemon and is not part of this model; `Uri` stands
 * in for it with the two things the invariants talk about, a destination
 * address and a port.
 */
module ConsumerOutput {

  const PATH_MAX: nat := 4096

  /** `enum consumer_dst_type`. */
  datatype DstType = DstLocal | DstNet

  /** The destination address of a URI: an IPv4 or IPv6 host, or a path. */
  datatype Address = IPv4(v4: seq<int>) | IPv6(v6: seq<int>) | Path(path: string)

  datatype Uri = Uri(address: Address, port: int)

  /** A URI that is complete and usable: a well-formed address and, for a
      network address, a TCP port. */
  predicate UriValid(u: Uri) {
    match u.address
    case IPv4(b) => |b| == 4 && (forall i :: 0 <= i < 4 ==> 0 <= b[i] < 0x100) && 0 < u.port < 0x1_0000
    case IPv6(b) => |b| == 16 && (forall i :: 0 <= i < 16 ==> 0 <= b[i] < 0x100) && 0 < u.port < 0x1_0000
    case Path(p) => 0 < |p| < PATH_MAX
  }

  /** `struct consumer_net`. */
  datatype ConsumerNet = ConsumerNet(controlIsset: bool, dataIsset: bool, control: Uri, data: Uri)

  /** `struct consumer_output`; `tracePath` and `net` are the two members of
      the `dst` union. */
  datatype ConsumerOutputRec = ConsumerOutputRec(sock: int, enabled: bool, dstType: DstType,
                                                 netSeqIndex: int, subdir: string,
                                                 tracePath: string, net: ConsumerNet)

  /** The invariants of `struct consumer_net`: a flag is set only for a
      complete, valid URI, and two set URIs share their destination address
      (network hops are not supported). */
  predicate NetValid(n: ConsumerNet) {
    && (n.controlIsset ==> UriValid(n.control))
    && (n.dataIsset ==> UriValid(n.data))
    && (n.controlIsset && n.dataIsset ==> n.control.address == n.data.address)
  }

  /** A well-formed output: the strings fit their `PATH_MAX` buffers and the
      selected destination satisfies its invariants. */
  predicate Valid(o: ConsumerOutputRec) {
    && |o.subdir| < PATH_MAX
    && (o.dstType == DstLocal ==> |o.tracePath| < PATH_MAX)
    && (o.dstType == DstNet ==> NetValid(o.net))
  }

  /* ------------------------------------------------------- abstraction */

  datatype Option<T> = None | Some(value: T)

  /** The destination an output denotes: exactly one of a local path or a
      network pair, where an unset URI is absent. */
  datatype Destination = LocalPath(path: string) | Network(control: Option<Uri>, data: Option<Uri>)

  predicate DestinationValid(d: Destination) {
    match d
    case LocalPath(p) => |p| < PATH_MAX
    case Network(c, dt) =>
      && (c.Some? ==> UriValid(c.value))
      && (dt.Some? ==> UriValid(dt.value))
      && (c.Some? && dt.Some? ==> c.value.address == dt.value.address)
  }

  function Flagged(isset: bool, u: Uri): Option<Uri> {
    if isset then Some(u) else None
  }

  /** The meaning of an output record: only the union member `type` selects. */
  function Dest(o: ConsumerOutputRec): (d: Destination)
    ensures d.LocalPath? <==> o.dstType == DstLocal
    ensures d.Network? ==> (d.control.Some? <==> o.net.controlIsset) && (d.data.Some? <==> o.net.dataIsset)
  {
    match o.dstType
    case DstLocal => LocalPath(o.tracePath)
    case DstNet => Network(Flagged(o.net.controlIsset, o.net.control), Flagged(o.net.dataIsset, o.net.data))
  }

  /** A record's invariants hold exactly when its sub-directory fits and the
      destination it denotes is valid. */
  lemma ValidIffDestinationValid(o: ConsumerOutputRec)
    ensures Valid(o) <==> |o.subdir| < PATH_MAX && DestinationValid(Dest(o))
  {
  }

  /** The union member `type` does not select is never read: records that
      differ only there denote the same destination and are equally valid. */
  lemma UnselectedMemberIgnored(o: ConsumerOutputRec, other: ConsumerOutputRec)
    requires other == (if o.dstType == DstLocal then o.(net := other.net) else o.(tracePath := other.tracePath))
    ensures Dest(other) == Dest(o)
    ensures Valid(other) <==> Valid(o)
  {
  }

  /** A URI whose flag is clear plays no part, whatever it holds. */
  lemma UnsetUriIgnored(o: ConsumerOutputRec, u: Uri)
    requires o.dstType == DstNet && !o.net.dataIsset
    ensures Dest(o.(net := o.net.(data := u))) == Dest(o)
    ensures Valid(o.(net := o.net.(data := u))) <==> Valid(o)
  {
  }

  /** Two set network URIs of a valid output reach the same host. */
  lemma SetUrisShareAddress(o: ConsumerOutputRec)
    requires Valid(o) && o.dstType == DstNet
    requires Dest(o).control.Some? && Dest(o).data.Some?
    ensures Dest(o).control.value.address == Dest(o).data.value.address
    ensures UriValid(Dest(o).control.value) && UriValid(Dest(o).data.value)
  {
  }
}
