/**
  `getDefaultInterface` (main.go): the interface the XDP program is attached
  to. The system's interface list is an input (`None` when `net.Interfaces`
  failed); each interface carries its name, its loopback and up flags and
  its addresses (`None` when `Addrs` failed). The first interface that is up,
  is not a loopback interface and has a non-loopback IPv4 address is chosen;
  without one the name is empty.
 */
module Interfaces {

  import opened Wrappers

  /** An address of an interface: an `*net.IPNet` with the bytes of its
      `IP`, or an address of any other kind. */
  datatype IfAddr = IPNet(ip: seq<bv8>) | OtherAddr

  datatype Interface = Interface(name: string, loopback: bool, up: bool, addrs: Option<seq<IfAddr>>)

  /** `net.IP.To4`: a 4-byte address as it is, a 16-byte IPv4-mapped address
      (ten zero bytes, two 0xff bytes) as its last four bytes, and nothing
      otherwise. */
  function To4(ip: seq<bv8>): (r: Option<seq<bv8>>)
    ensures r.Some? ==> |r.value| == 4
    ensures |ip| == 4 ==> r == Some(ip)
    ensures |ip| == 16 ==> (r.Some? <==> ip[..12] == V4InV6Prefix)
    ensures |ip| == 16 && r.Some? ==> r.value == ip[12..]
    ensures |ip| != 4 && |ip| != 16 ==> r.None?
  {
    if |ip| == 4 then Some(ip)
    else if |ip| == 16 && (forall i :: 0 <= i < 10 ==> ip[i] == 0) && ip[10] == 0xff && ip[11] == 0xff then Some(ip[12..])
    else None
  }

  /** The twelve bytes in front of an IPv4 address in its 16-byte form. */
  const V4InV6Prefix: seq<bv8> := [0, 0, 0, 0, 0, 0, 0, 0, 0, 0, 0xff, 0xff]

  /** `To4` undoes the 16-byte form `net.IPv4` builds. */
  lemma To4OfMapped(v4: seq<bv8>)
    requires |v4| == 4
    ensures To4(V4InV6Prefix + v4) == Some(v4)
  {
    var ip := V4InV6Prefix + v4;
    assert ip[..12] == V4InV6Prefix && ip[12..] == v4;
  }

  /** `net.IP.IsLoopback`: an IPv4 address in 127.0.0.0/8, or the IPv6
      address ::1. */
  predicate IsLoopback(ip: seq<bv8>)
  {
    match To4(ip)
    case Some(ip4) => ip4[0] == 127
    case None => |ip| == 16 && (forall i :: 0 <= i < 15 ==> ip[i] == 0) && ip[15] == 1
  }

  /** An address that qualifies its interface: an `*net.IPNet` holding a
      non-loopback address that has an IPv4 form. */
  predicate UsableAddr(a: IfAddr)
  {
    a.IPNet? && !IsLoopback(a.ip) && To4(a.ip).Some?
  }

  /** An interface that may carry the filter: up, not loopback, its addresses
      readable, one of them usable. */
  predicate Eligible(iface: Interface)
  {
    !iface.loopback && iface.up && iface.addrs.Some?
    && exists k :: 0 <= k < |iface.addrs.value| && UsableAddr(iface.addrs.value[k])
  }

  /** The position of the first eligible interface, or the length of the list
      when there is none. */
  function FirstEligible(ifaces: seq<Interface>): (r: nat)
    ensures r <= |ifaces|
    ensures forall t :: 0 <= t < r ==> !Eligible(ifaces[t])
    ensures r < |ifaces| ==> Eligible(ifaces[r])
  {
    if ifaces == [] then 0
    else if Eligible(ifaces[0]) then 0
    else
      var r := 1 + FirstEligible(ifaces[1..]);
      assert forall t :: 1 <= t < r ==> ifaces[t] == ifaces[1..][t - 1];
      r
  }

  /** The name `getDefaultInterface` returns. */
  function DefaultName(ifaces: Option<seq<Interface>>): string
  {
    match ifaces
    case None => ""
    case Some(list) => if FirstEligible(list) < |list| then list[FirstEligible(list)].name else ""
  }

  /** The chosen name belongs to an eligible interface that no earlier
      interface beats; an empty result with a readable list and names that
      are never empty means no interface is eligible. */
  lemma DefaultNameChoice(ifaces: seq<Interface>)
    requires forall t :: 0 <= t < |ifaces| ==> ifaces[t].name != ""
    ensures DefaultName(Some(ifaces)) == "" <==> forall t :: 0 <= t < |ifaces| ==> !Eligible(ifaces[t])
    ensures DefaultName(Some(ifaces)) != "" ==>
      exists i :: 0 <= i < |ifaces| && Eligible(ifaces[i]) && ifaces[i].name == DefaultName(Some(ifaces))
               && forall t :: 0 <= t < i ==> !Eligible(ifaces[t])
  {
    var r := FirstEligible(ifaces);
    if r < |ifaces| {
      assert Eligible(ifaces[r]) && ifaces[r].name != "";
    }
  }

  /** `getDefaultInterface` over the given interface list. */
  method DefaultInterface(ifaces: Option<seq<Interface>>) returns (name: string)
    ensures name == DefaultName(ifaces)
  {
    if ifaces.None? {
      return "";
    }
    var list := ifaces.value;
    var i := 0;
    while i < |list|
      invariant 0 <= i <= |list|
      invariant forall t :: 0 <= t < i ==> !Eligible(list[t])
    {
      var iface := list[i];
      if !iface.loopback && iface.up && iface.addrs.Some? {
        var addrs := iface.addrs.value;
        var k := 0;
        while k < |addrs|
          invariant 0 <= k <= |addrs|
          invariant forall t :: 0 <= t < k ==> !UsableAddr(addrs[t])
        {
          var addr := addrs[k];
          if addr.IPNet? && !IsLoopback(addr.ip) {
            if To4(addr.ip).Some? {
              FirstEligibleAt(list, i);
              return iface.name;
            }
          }
          k := k + 1;
        }
      }
      i := i + 1;
    }
    return "";
  }

  /** An eligible interface with none eligible before it is the first one. */
  lemma FirstEligibleAt(ifaces: seq<Interface>, i: nat)
    requires i < |ifaces| && Eligible(ifaces[i])
    requires forall t :: 0 <= t < i ==> !Eligible(ifaces[t])
    ensures FirstEligible(ifaces) == i
  {
  }
}
