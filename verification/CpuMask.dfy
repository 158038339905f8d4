/** CPU and NUMA node masks: the text form kept in configurations (lib/cpu.c) and the
    mask written to the cpuset cgroup (lib/cgroup.c). */
module CpuMask {
  import opened CText
  import opened Words
  import opened Bitmap
  import opened MaskText
  import opened BitmapText
  import opened Common

  const VZCTL_MAX_NCPU: nat := 4096
  const LONGS: nat := 64                 // VZCTL_MAX_NCPU bits
  const STR_BUF: nat := 1024             // the buffer of cpumask2str
  const CG_BUF: nat := 4096              // the buffer of cg_env_set_mask

  lemma {:induction false} DecimalHasNoNul(n: nat)
    ensures NoNul(Decimal(n))
  {
    assert forall i :: 0 <= i < |Decimal(n)| ==> IsDigit(Decimal(n)[i]);
  }

  lemma RangeTextHasNoNul(r: Range)
    ensures NoNul(RangeText(r))
  {
    DecimalHasNoNul(r.lo);
    DecimalHasNoNul(r.hi);
  }

  lemma {:induction false} TextHasNoNul(rs: seq<Range>)
    ensures NoNul(Text(rs))
  {
    if |rs| > 0 {
      RangeTextHasNoNul(rs[0]);
      TextHasNoNul(rs[1..]);
    }
  }

  /** A buffer that holds a printed mask is the C string of what was stored. */
  lemma HeldText(buf: array<char>, buflen: nat, m: Map)
    requires 0 < buflen <= buf.Length && Holds(buf, buflen, Printed(m))
    ensures CString(buf[..]) == Stored(m, buflen)
  {
    var t := Printed(m);
    TextHasNoNul(Runs(m));
    var k := if |t| < buflen then |t| else buflen - 1;
    assert buf[..][..k] == buf[..k] == t[..k];
    assert t[..|t|] == t;
    CStringIs(buf[..], k);
  }

  // ---------------------------------------------------------------------
  // The saved text of a mask.
  // ---------------------------------------------------------------------

  class Cpumask {
    const mask: array<bv64>
    var auto: bool

    constructor ()
      ensures mask.Length == LONGS && !auto && Bits(mask[..]) == {} && fresh(mask)
    {
      mask := new bv64[LONGS];
      auto := false;
      new;
      Zero(mask);
    }
  }

  /** The text cpumask2str gives for a mask: all CPUs are written as nothing. */
  ghost function SavedText(m: Map, auto: bool): string {
    if auto then "auto"
    else if Full(m) then ""
    else Stored(m, STR_BUF)
  }

  method Cpumask2Str(cpumask: Cpumask?) returns (r: Option<string>)
    requires cpumask != null ==> cpumask.mask.Length == LONGS
    ensures cpumask == null ==> r == None
    ensures cpumask != null ==> r == Some(SavedText(cpumask.mask[..], cpumask.auto))
  {
    if cpumask == null {
      return None;
    }
    if cpumask.auto {
      return Some("auto");
    }
    var buf := new char[STR_BUF](_ => '\0');
    assert CString(buf[..]) == "";
    var all := AllBitSet(cpumask.mask);
    if !all {
      ghost var m := cpumask.mask[..];
      var len := BitmapSnprintf(buf, STR_BUF, cpumask.mask);
      assert cpumask.mask[..] == m;
      HeldText(buf, STR_BUF, m);
    }
    return Some(CString(buf[..]));
  }

  const VZCTL_E_INVAL: int := 21
  const VZCTL_E_CPUMASK: int := 146

  /** Parses into the given mask, or into a new one. A text that is not accepted leaves
      no mask behind. */
  method ParseCpumask(str: Option<string>, cpumask: Cpumask?) returns (ret: int, result: Cpumask?)
    requires cpumask != null ==> cpumask.mask.Length == LONGS
    modifies if cpumask != null then {cpumask, cpumask.mask} else {}
    ensures str.None? ==> ret == VZCTL_E_INVAL && result == cpumask
    ensures str == Some("auto") ==> ret == 0 && result != null && result.auto
    ensures str == Some("auto") && cpumask == null ==> Bits(result.mask[..]) == {}
    ensures str == Some("auto") && cpumask != null ==> result == cpumask && result.mask[..] == old(cpumask.mask[..])
    ensures str.Some? && str.value != "auto" ==>
      match ParseMask(str.value, VZCTL_MAX_NCPU)
      case Ranges(rs) => ret == 0 && result != null && result.mask.Length == LONGS
                         && Shows(Bits(result.mask[..]), rs)
                         && result.auto == (cpumask != null && old(cpumask.auto))
      case _ => ret == -1 && result == null
  {
    ret, result := 0, cpumask;
    if str.None? {
      return VZCTL_E_INVAL, result;
    }
    if result == null {
      result := new Cpumask();
    }
    if str.value == "auto" {
      result.auto := true;
    } else {
      var errno;
      ret, errno := BitmapParse(str.value, result.mask);
      if ret != 0 {
        result := null;
      }
    }
  }

  /** Loading the saved text of a mask, with no mask there before, gives the mask back. */
  ghost predicate Survives(m: Map, auto: bool)
    requires |m| == LONGS
  {
    var s := SavedText(m, auto);
    if s == "auto" then auto && Bits(m) == {}
    else !auto && Restores(s, m)
  }

  /** Saving and loading keeps exactly the automatic masks without bits, as only the mark comes back,
      and the other masks that are not empty and are full or short enough as text. */
  lemma SurvivesExactly(m: Map, auto: bool)
    requires |m| == LONGS
    ensures Survives(m, auto) <==>
      if auto then Bits(m) == {} else Full(m) || (Bits(m) != {} && |Printed(m)| < STR_BUF)
  {
    if !auto {
      EmptyPrintsNothing(m);
      if Full(m) {
        EmptyRestoresFull(m);
      } else {
        RoundTripExactly(m, STR_BUF);
        StoredIsNoWord(m);
      }
    }
  }

  lemma StoredIsNoWord(m: Map)
    requires |m| == LONGS
    ensures Stored(m, STR_BUF) != "auto"
  {
    EmptyPrintsNothing(m);
    if Bits(m) != {} {
      RunsAreCanonical(m);
      PrintedIsParsed(Runs(m), VZCTL_MAX_NCPU);
      assert IsDigit(Stored(m, STR_BUF)[0]);
    }
  }

  // ---------------------------------------------------------------------
  // Node masks, which are never automatic.
  // ---------------------------------------------------------------------

  const NODE_LONGS: nat := 64            // VZCTL_MAX_NNODE bits

  ghost function SavedNodes(m: Map): string {
    if Full(m) then "" else Stored(m, STR_BUF)
  }

  method Nodemask2Str(nodemask: array?<bv64>) returns (r: Option<string>)
    requires nodemask != null ==> nodemask.Length == NODE_LONGS
    ensures r == if nodemask == null then None else Some(SavedNodes(nodemask[..]))
  {
    if nodemask == null {
      return None;
    }
    var buf := new char[STR_BUF](_ => '\0');
    assert CString(buf[..]) == "";
    var all := AllBitSet(nodemask);
    if !all {
      ghost var m := nodemask[..];
      var len := BitmapSnprintf(buf, STR_BUF, nodemask);
      assert nodemask[..] == m;
      HeldText(buf, STR_BUF, m);
    }
    return Some(CString(buf[..]));
  }

  method ParseNodemask(str: Option<string>, nodemask: array?<bv64>) returns (ret: int, result: array?<bv64>)
    requires nodemask != null ==> nodemask.Length == NODE_LONGS
    modifies if nodemask != null then {nodemask} else {}
    ensures str.None? ==> ret == VZCTL_E_INVAL && result == nodemask
    ensures str.Some? ==>
      match ParseMask(str.value, BITS_PER_LONG * NODE_LONGS)
      case Ranges(rs) => ret == 0 && result != null && result.Length == NODE_LONGS && Shows(Bits(result[..]), rs)
      case _ => ret == -1 && result == null
  {
    ret, result := 0, nodemask;
    if str.None? {
      return VZCTL_E_INVAL, result;
    }
    if result == null {
      result := new bv64[NODE_LONGS];
      Zero(result);
    }
    var errno;
    ret, errno := BitmapParse(str.value, result);
    if ret != 0 {
      result := null;
    }
  }

  /** Saving and loading keeps exactly the node masks that are not empty and are full or
      short enough as text. */
  lemma NodesSurviveExactly(m: Map)
    requires |m| == NODE_LONGS
    ensures Restores(SavedNodes(m), m) <==> Full(m) || (Bits(m) != {} && |Printed(m)| < STR_BUF)
  {
    EmptyPrintsNothing(m);
    if Full(m) {
      EmptyRestoresFull(m);
    } else {
      RoundTripExactly(m, STR_BUF);
    }
  }

  // ---------------------------------------------------------------------
  // The mask of the running container.
  // ---------------------------------------------------------------------

  /** cg_env_set_mask: what is written is the part of the requested mask that the active
      mask allows; asking for nothing of it is an error and writes nothing. */
  method EnvSetMask(active: string, cpumask: array<bv64>) returns (ret: int, written: Option<string>, ghost m: Map)
    requires 0 < cpumask.Length
    ensures ret == 0 || ret == VZCTL_E_CPUMASK
    ensures ret != 0 ==> written == None
    ensures ret == 0 ==> written == Some(Stored(m, CG_BUF)) && |m| == cpumask.Length
    ensures match ParseMask(active, BITS_PER_LONG * cpumask.Length)
            case Ranges(rs) =>
              && (ret == 0 <==> exists n <- Bits(cpumask[..]) :: Covers(rs, n))
              && (ret == 0 ==> forall n: nat :: n in Bits(m) <==> n in Bits(cpumask[..]) && Covers(rs, n))
            case _ => ret == VZCTL_E_CPUMASK
  {
    written, m := None, cpumask[..];
    var mask := new bv64[cpumask.Length];
    var rc, errno := BitmapParse(active, mask);
    if rc != 0 {
      return VZCTL_E_CPUMASK, written, m;
    }
    ghost var allowed := Bits(mask[..]);
    var any := Combine(Both, mask, cpumask, mask);
    m := mask[..];
    if !any {
      assert Bits(cpumask[..]) * allowed == {};
      forall n | n in Bits(cpumask[..])
        ensures n !in allowed
      {
        assert n !in Bits(cpumask[..]) * allowed;
      }
      return VZCTL_E_CPUMASK, written, m;
    }
    ghost var n :| n in Bits(m);
    var buf := new char[CG_BUF](_ => '\0');
    var len := BitmapSnprintf(buf, CG_BUF, mask);
    assert mask[..] == m;
    HeldText(buf, CG_BUF, m);
    return 0, Some(CString(buf[..])), m;
  }

  /** What is written denotes exactly the allowed part if and only if its text fits the buffer. */
  lemma WrittenMaskIsExact(m: Map)
    requires 0 < |m| && BITS_PER_LONG * |m| <= ULONG_MAX && Bits(m) != {}
    ensures Restores(Stored(m, CG_BUF), m) <==> |Printed(m)| < CG_BUF
  {
    RoundTripExactly(m, CG_BUF);
  }
}
