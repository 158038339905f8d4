/** Strings and buffers as the C library handles them. */
module CText {

  predicate NoNul(s: string) {
    forall i :: 0 <= i < |s| ==> s[i] != '\0'
  }

  /** The C string a buffer starts with. */
  function CString(s: string): string {
    if |s| == 0 || s[0] == '\0' then "" else [s[0]] + CString(s[1..])
  }

  lemma {:induction false} CStringIs(s: string, k: nat)
    requires k < |s| && NoNul(s[..k]) && s[k] == '\0'
    ensures CString(s) == s[..k]
  {
    if k > 0 {
      assert s[..k][0] == s[0] && s[1..][..k - 1] == s[..k][1..];
      CStringIs(s[1..], k - 1);
      assert s[..k] == [s[0]] + s[1..][..k - 1];
    }
  }

  /** strchr: the first c, or the length of s. */
  function Find(s: string, c: char): (i: nat)
    ensures i <= |s| && (i < |s| ==> s[i] == c) && forall j :: 0 <= j < i ==> s[j] != c
  {
    if |s| == 0 || s[0] == c then 0 else 1 + Find(s[1..], c)
  }

  lemma FindFirst(front: string, rest: string, c: char)
    requires c !in front && (|rest| > 0 ==> rest[0] == c)
    ensures Find(front + rest, c) == |front|
  {
    var i := Find(front + rest, c);
    assert forall j :: 0 <= j < |front| ==> (front + rest)[j] in front;
    assert |rest| > 0 ==> (front + rest)[|front|] == c;
  }

  /** The buffer holds t as far as it fits, and a NUL. */
  ghost predicate Holds(buf: array<char>, buflen: nat, t: string)
    requires 0 < buflen <= buf.Length
    reads buf
  {
    var k := if |t| < buflen then |t| else buflen - 1;
    buf[..k] == t[..k] && buf[k] == '\0'
  }

  /** snprintf(buf + off, n, "%s", s) */
  method Snprintf(buf: array<char>, off: nat, n: nat, s: string) returns (len: nat)
    requires n > 0 ==> off + n <= buf.Length
    modifies buf
    ensures len == |s|
    ensures n == 0 ==> buf[..] == old(buf[..])
    ensures n > 0 ==>
      var k := if |s| < n then |s| else n - 1;
      buf[..off] == old(buf[..off]) && buf[off..off + k] == s[..k] && buf[off + k] == '\0'
  {
    if n > 0 {
      var i := 0;
      while i < |s| && i < n - 1
        invariant i <= |s| && i <= n - 1
        invariant buf[..off] == old(buf[..off]) && buf[off..off + i] == s[..i]
      {
        buf[off + i] := s[i];
        i := i + 1;
      }
      buf[off + i] := '\0';
    }
    return |s|;
  }

  /** One more piece behind what the buffer holds already. */
  method Append(buf: array<char>, buflen: nat, ghost t: string, len: nat, s: string) returns (more: nat)
    requires 0 < buflen <= buf.Length && len == |t| && Holds(buf, buflen, t)
    modifies buf
    ensures more == |s| && Holds(buf, buflen, t + s)
  {
    ghost var was := buf[..];
    more := Snprintf(buf, len, if buflen > len then buflen - len else 0, s);
    if buflen > len {
      ghost var k := if |s| < buflen - len then |s| else buflen - len - 1;
      assert buf[..len + k] == buf[..len] + buf[len..len + k];
      assert (t + s)[..len + k] == t + s[..k];
    } else {
      assert (t + s)[..buflen - 1] == t[..buflen - 1];
    }
  }
}
