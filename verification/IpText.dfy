/** The text of a list of addresses as ips2str of lib/env_config.c prints it. */
module IpText {
  import opened CText
  import opened Common

  type Ip = Str

  /** An address and the text of its network mask, empty without one. */
  datatype IpParam = IpParam(ip: Ip, mask: Str)

  const IP_BUF: nat := 128

  /** A dotted quad, or a number. */
  predicate Proper(p: IpParam) {
    |p.mask.text| <= 15
  }

  ghost predicate AllProper(ps: seq<IpParam>) {
    forall p <- ps :: Proper(p)
  }

  function NameOf(p: IpParam): string {
    p.ip.text + if |p.mask.text| == 0 then "" else "/" + p.mask.text
  }

  /** get_ip_str: an address too long for the small buffer is an error, and left out. */
  method GetIpStr(p: IpParam) returns (r: Option<string>)
    ensures r == if |NameOf(p)| < IP_BUF then Some(NameOf(p)) else None
  {
    var n := |p.ip.text|;
    if n >= IP_BUF {
      return None;
    }
    if |p.mask.text| == 0 {
      assert p.ip.text + "" == p.ip.text;
      return Some(p.ip.text);
    }
    if n + 1 + |p.mask.text| >= IP_BUF {
      return None;
    }
    return Some(p.ip.text + ("/" + p.mask.text));
  }

  function PieceOf(p: IpParam): string {
    if |NameOf(p)| < IP_BUF then NameOf(p) + " " else ""
  }

  /** The first k addresses, each with a blank behind it. */
  function TextTo(ps: seq<IpParam>, k: nat): string
    requires k <= |ps|
  {
    if k == 0 then "" else TextTo(ps, k - 1) + PieceOf(ps[k - 1])
  }

  function RoomTo(ps: seq<IpParam>, k: nat): (len: nat)
    requires k <= |ps|
    ensures len >= 17 * k
  {
    if k == 0 then 0 else RoomTo(ps, k - 1) + |ps[k - 1].ip.text| + 16 + 1
  }

  lemma RoomOfOne(p: IpParam)
    requires Proper(p)
    ensures |PieceOf(p)| <= |p.ip.text| + 17
  {
  }

  lemma {:induction false} RoomIsEnough(ps: seq<IpParam>, k: nat)
    requires k <= |ps| && AllProper(ps)
    ensures |TextTo(ps, k)| <= RoomTo(ps, k)
  {
    if k > 0 {
      RoomIsEnough(ps, k - 1);
      RoomOfOne(ps[k - 1]);
    }
  }

  lemma {:induction false} RoomGrows(ps: seq<IpParam>, j: nat, k: nat)
    requires j <= k <= |ps|
    ensures RoomTo(ps, j) + 17 * (k - j) <= RoomTo(ps, k)
  {
    if j < k {
      RoomGrows(ps, j, k - 1);
    }
  }

  method ReckonRoom(ps: seq<IpParam>) returns (len: nat)
    ensures len == RoomTo(ps, |ps|)
  {
    len := 0;
    var i := 0;
    while i < |ps|
      invariant i <= |ps| && len == RoomTo(ps, i)
    {
      len := len + |ps[i].ip.text| + 16 + 1;
      i := i + 1;
    }
  }

  /** There is room for one more address, but perhaps not for the blank behind the last one. */
  lemma RoomForOneMore(ps: seq<IpParam>, i: nat)
    requires i < |ps| && AllProper(ps)
    ensures |TextTo(ps, i)| + |PieceOf(ps[i])| <= RoomTo(ps, |ps|)
    ensures |TextTo(ps, i)| + |PieceOf(ps[i])| == RoomTo(ps, |ps|) ==> i + 1 == |ps|
    ensures TextTo(ps, i + 1) == TextTo(ps, i) + PieceOf(ps[i])
  {
    RoomIsEnough(ps, i + 1);
    RoomGrows(ps, i + 1, |ps|);
  }

  /** One address behind what the buffer holds already. */
  method PrintIp(buf: array<char>, len: nat, ghost t: string, sp: nat, p: IpParam) returns (r: nat)
    requires 0 < len <= buf.Length && sp == |t| && Holds(buf, len, t)
    modifies buf
    ensures r == |PieceOf(p)| && Holds(buf, len, t + PieceOf(p))
  {
    var name := GetIpStr(p);
    if name.None? {
      assert t + "" == t;
      return 0;
    }
    r := Append(buf, len, t, sp, name.value + " ");
  }

  /** The buffer holds the text of every address, of which only the last blank may be missing. */
  method PrintIps(ps: seq<IpParam>) returns (buf: array<char>)
    requires |ps| > 0 && AllProper(ps)
    ensures fresh(buf) && buf.Length > 1 && |TextTo(ps, |ps|)| <= buf.Length - 1
    ensures Holds(buf, buf.Length - 1, TextTo(ps, |ps|))
  {
    var len := ReckonRoom(ps);
    buf := new char[len + 1];
    buf[0] := '\0';
    RoomIsEnough(ps, |ps|);
    var sp, i := 0, 0;
    while i < |ps|
      invariant i <= |ps| && sp == |TextTo(ps, i)| && Holds(buf, len, TextTo(ps, i))
    {
      RoomForOneMore(ps, i);
      var r := PrintIp(buf, len, TextTo(ps, i), sp, ps[i]);
      i := i + 1;
      if sp + r >= len {
        break;
      }
      sp := sp + r;
    }
  }

  lemma EndsWithABlank(t: string, p: IpParam)
    requires |t + PieceOf(p)| > 0 && (|t| > 0 ==> t[|t| - 1] == ' ')
    ensures (t + PieceOf(p))[|t + PieceOf(p)| - 1] == ' '
  {
    if |PieceOf(p)| == 0 {
      assert t + PieceOf(p) == t;
    }
  }

  /** Every text ends with a blank, so that nothing else of it can be missing. */
  lemma {:induction false} OnlyABlankIsCut(ps: seq<IpParam>, k: nat)
    requires k <= |ps|
    ensures var t := TextTo(ps, k); |t| > 0 ==> t[|t| - 1] == ' '
  {
    if k > 0 {
      OnlyABlankIsCut(ps, k - 1);
      if |TextTo(ps, k)| > 0 {
        EndsWithABlank(TextTo(ps, k - 1), ps[k - 1]);
      }
    }
  }
}
