/**
 * The EDNS0 Client Subnet extraction of `edns0Subnet`: the first client-subnet
 * option (section 6 of RFC 7871) of a query's OPT record, printed as
 * "<address>/<source prefix length>", or the sentinel "-" when there is none.
 */
module Ecs {
  import opened Wrappers
  import Decimal

  type Uint8 = x: int | 0 <= x < 0x100
  type Uint16 = x: int | 0 <= x < 0x1_0000

  /**
   * One EDNS0 option of an OPT pseudo-record. Only the client-subnet option is
   * told apart from the others. `address` is the text the DNS library prints
   * for the option's address, kept opaque.
   */
  datatype EdnsOption =
    | Subnet(family: Uint16, sourceNetmask: Uint8, sourceScope: Uint8, address: string)
    | OtherOption(code: Uint16)

  /** The part of a query the extractor sees: the options of the OPT record the library reports, if any. */
  datatype Msg = Msg(opt: Option<seq<EdnsOption>>)

  /** What `edns0Subnet` returns when there is no client-subnet option. */
  const ABSENT: string := "-"

  /** The query's OPT record holds a client-subnet option somewhere. */
  predicate CarriesSubnet(r: Msg) {
    r.opt.Some? && exists j :: 0 <= j < |r.opt.value| && r.opt.value[j].Subnet?
  }

  /** Option `j` is a client-subnet option and no option before it is one. */
  predicate IsFirstSubnet(r: Msg, j: nat) {
    && r.opt.Some?
    && j < |r.opt.value|
    && r.opt.value[j].Subnet?
    && forall k :: 0 <= k < j ==> !r.opt.value[k].Subnet?
  }

  /** The text `edns0Subnet` prints for a client-subnet option. */
  function SubnetText(o: EdnsOption): string
    requires o.Subnet?
  {
    o.address + "/" + Decimal.Text(o.sourceNetmask)
  }

  /** The index of the first client-subnet option, scanning in option order. */
  function FirstSubnet(options: seq<EdnsOption>): (r: Option<nat>)
    ensures r.Some? ==> r.value < |options| && options[r.value].Subnet?
    ensures r.Some? ==> forall k :: 0 <= k < r.value ==> !options[k].Subnet?
    ensures r.None? ==> forall k :: 0 <= k < |options| ==> !options[k].Subnet?
  {
    if options == [] then None
    else if options[0].Subnet? then Some(0)
    else
      match FirstSubnet(options[1..])
      case None => None
      case Some(i) => Some(i + 1)
  }

  /**
   * `edns0Subnet`: the sentinel exactly when no client-subnet option is carried,
   * and otherwise the text of the first one in option order.
   */
  function Edns0Subnet(r: Msg): (s: string)
    ensures s == ABSENT <==> !CarriesSubnet(r)
    ensures forall j: nat :: IsFirstSubnet(r, j) ==> s == SubnetText(r.opt.value[j])
  {
    match r.opt
    case None => ABSENT
    case Some(options) =>
      match FirstSubnet(options)
      case None => ABSENT
      case Some(i) =>
        assert IsFirstSubnet(r, i);
        SubnetText(options[i])
  }

  /** A prefix read back from "<address>/<decimal>". */
  datatype Cidr = Cidr(address: string, prefix: nat)

  /** The position of the last '/' in `s`. */
  function LastSlash(s: string): (r: Option<nat>)
    ensures r.Some? ==> r.value < |s| && s[r.value] == '/'
    ensures r.Some? ==> forall j :: r.value < j < |s| ==> s[j] != '/'
    ensures r.None? ==> forall j :: 0 <= j < |s| ==> s[j] != '/'
  {
    if s == [] then None
    else if s[|s| - 1] == '/' then Some(|s| - 1)
    else LastSlash(s[..|s| - 1])
  }

  /** Splits "<address>/<decimal>" at its last slash; the inverse of `SubnetText`. */
  function ParseCidr(s: string): Option<Cidr> {
    match LastSlash(s)
    case None => None
    case Some(i) =>
      var digits := s[i + 1..];
      if digits != [] && Decimal.IsDigits(digits) then Some(Cidr(s[..i], Decimal.Value(digits))) else None
  }

  /** The printed subnet text gives back the option's address text and its source prefix length. */
  lemma SubnetTextParses(o: EdnsOption)
    requires o.Subnet?
    ensures ParseCidr(SubnetText(o)) == Some(Cidr(o.address, o.sourceNetmask))
  {
    var d := Decimal.Text(o.sourceNetmask);
    var s := SubnetText(o);
    var n := |o.address|;
    assert s[n] == '/';
    forall j | n < j < |s|
      ensures s[j] != '/'
    {
      assert s[j] == d[j - n - 1];
    }
    assert LastSlash(s) == Some(n);
    assert s[..n] == o.address;
    assert s[n + 1..] == d;
    Decimal.ValueOfText(o.sourceNetmask);
  }

  /**
   * What `edns0Subnet` prints can be read back: nothing for the sentinel, and
   * the first client-subnet option's address and prefix length otherwise.
   */
  lemma Edns0SubnetParses(r: Msg)
    ensures ParseCidr(Edns0Subnet(r)).None? <==> !CarriesSubnet(r)
    ensures forall j: nat :: IsFirstSubnet(r, j) ==>
      ParseCidr(Edns0Subnet(r)) == Some(Cidr(r.opt.value[j].address, r.opt.value[j].sourceNetmask))
  {
    if CarriesSubnet(r) {
      var i := FirstSubnet(r.opt.value).value;
      assert IsFirstSubnet(r, i);
      SubnetTextParses(r.opt.value[i]);
    } else {
      assert LastSlash(ABSENT) == None;
    }
  }
}
