/** `update_interface_chart` without its drawing: one row per network
    interface, in the order the address table lists them, holding the
    interface's name, its IPv4 address and whether the link is up. */
module Interfaces {
  import opened Basics

  /** The address families an interface entry can carry; only `Inet` (IPv4)
      is ever shown. */
  datatype Family = Inet | Inet6 | Link | OtherFamily(code: int)

  /** One address entry of an interface. */
  datatype IfAddr = IfAddr(family: Family, address: string)

  /** An interface and its address entries, as the address table lists them. */
  datatype Interface = Interface(name: string, addrs: seq<IfAddr>)

  /** One row of the interface table. */
  datatype InterfaceRow = InterfaceRow(name: string, ip: string, status: string)

  const Connected: string := "\U{1F7E2} Connected"
  const Disconnected: string := "\U{1F534} Disconnected"

  predicate IsInet(a: IfAddr) {
    a.family == Inet
  }

  /** The address shown for an interface: that of its last IPv4 entry, or
      "N/A" when it has none. */
  function Ipv4Of(addrs: seq<IfAddr>): (ip: string)
    ensures (forall k :: 0 <= k < |addrs| ==> !IsInet(addrs[k])) ==> ip == NotAvailable
    ensures forall k :: 0 <= k < |addrs| && IsInet(addrs[k])
                        && (forall j :: k < j < |addrs| ==> !IsInet(addrs[j]))
                        ==> ip == addrs[k].address
  {
    match LastIndexWhere(addrs, IsInet)
    case Some(k) => addrs[k].address
    case None => NotAvailable
  }

  /** The label for a link state. */
  function StatusLabel(up: bool): (text: string)
    ensures text == Connected <==> up
    ensures text == Disconnected <==> !up
  {
    if up then Connected else Disconnected
  }

  /** The inner loop: every entry is visited and each IPv4 entry overwrites the
      address found so far, so the last one stays. */
  method IpAddressOf(addrs: seq<IfAddr>) returns (ip: string)
    ensures ip == Ipv4Of(addrs)
  {
    ip := NotAvailable;
    var i := 0;
    while i < |addrs|
      invariant 0 <= i <= |addrs|
      invariant ip == Ipv4Of(addrs[..i])
    {
      assert addrs[..i + 1][..i] == addrs[..i];
      if addrs[i].family == Inet {
        ip := addrs[i].address;
      }
      i := i + 1;
    }
    assert addrs[..i] == addrs;
  }

  /** The row of one interface whose link state is known. */
  function RowFor(iface: Interface, up: bool): InterfaceRow {
    InterfaceRow(iface.name, Ipv4Of(iface.addrs), StatusLabel(up))
  }

  /** One refresh of the interface table. `isUp` maps each interface name the
      link-state table knows to whether its link is up. An interface the
      link-state table does not know raises a lookup error that ends the
      refresh: the rows written before it stay and `complete` is false. */
  method InterfaceRows(ifaces: seq<Interface>, isUp: map<string, bool>)
    returns (rows: seq<InterfaceRow>, complete: bool)
    ensures complete <==> forall i :: 0 <= i < |ifaces| ==> ifaces[i].name in isUp
    ensures complete ==> |rows| == |ifaces|
    ensures !complete ==> |rows| < |ifaces| && ifaces[|rows|].name !in isUp
    ensures forall i :: 0 <= i < |rows| ==>
              && ifaces[i].name in isUp
              && rows[i] == RowFor(ifaces[i], isUp[ifaces[i].name])
  {
    rows := [];
    var i := 0;
    while i < |ifaces|
      invariant 0 <= i <= |ifaces|
      invariant |rows| == i
      invariant forall j :: 0 <= j < i ==>
                  ifaces[j].name in isUp && rows[j] == RowFor(ifaces[j], isUp[ifaces[j].name])
    {
      var iface := ifaces[i];
      var ip := IpAddressOf(iface.addrs);
      if iface.name !in isUp {
        return rows, false;
      }
      var status := if isUp[iface.name] then Connected else Disconnected;
      rows := rows + [InterfaceRow(iface.name, ip, status)];
      i := i + 1;
    }
    complete := true;
  }
}
