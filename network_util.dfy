/** `fixNetworkDeviceName`: a device name cut after its last letter, with
    '0' appended (`eth1` becomes `eth0`, `eth0:1` becomes `eth0`). */
module NetworkUtil {
  import Strings

  /** The index of the last letter of `s`, or 0 when it has none. */
  function LastAlpha(s: string): (r: nat)
    ensures |s| > 0 ==> r < |s|
    ensures forall k :: r < k < |s| ==> !Strings.IsAlpha(s[k])
  {
    if |s| == 0 then 0
    else if Strings.IsAlpha(s[|s| - 1]) then |s| - 1
    else LastAlpha(s[..|s| - 1])
  }

  /** The index found points at a letter whenever there is one. */
  lemma {:induction false} LastAlphaIsAlpha(s: string)
    requires exists k :: 0 <= k < |s| && Strings.IsAlpha(s[k])
    ensures Strings.IsAlpha(s[LastAlpha(s)])
    decreases |s|
  {
    if !Strings.IsAlpha(s[|s| - 1]) {
      var k :| 0 <= k < |s| && Strings.IsAlpha(s[k]);
      assert k < |s| - 1;
      assert s[..|s| - 1][k] == s[k];
      LastAlphaIsAlpha(s[..|s| - 1]);
    }
  }

  /** `s[:n]` with the bound clamped. */
  function Prefix(s: string, n: nat): string
  {
    if n <= |s| then s[..n] else s
  }

  /** The loop: `lastAlpha` ends as the index of the last letter (0 if none). */
  method FixNetworkDeviceName(networkDevice: string) returns (r: string)
    ensures r == Prefix(networkDevice, LastAlpha(networkDevice) + 1) + "0"
  {
    var lastAlpha := 0;
    var i := 0;
    while i < |networkDevice|
      invariant 0 <= i <= |networkDevice|
      invariant lastAlpha == LastAlpha(networkDevice[..i])
      invariant i == 0 || lastAlpha < i
    {
      assert networkDevice[..i + 1][..i] == networkDevice[..i];
      if Strings.IsAlpha(networkDevice[i]) {
        lastAlpha := i;
      }
      i := i + 1;
    }
    assert networkDevice[..i] == networkDevice;
    r := Prefix(networkDevice, lastAlpha + 1) + "0";
  }

  /** The fixed name ends in '0' and is at most one character longer. */
  lemma FixedNameShape(networkDevice: string)
    ensures var r := Prefix(networkDevice, LastAlpha(networkDevice) + 1) + "0";
      r[|r| - 1] == '0' && |r| <= |networkDevice| + 1
  {
  }

  /** A name with a letter keeps exactly its text through the last letter:
      what is kept ends in a letter and what is dropped has none. */
  lemma FixedNameKeepsLetters(networkDevice: string)
    requires exists k :: 0 <= k < |networkDevice| && Strings.IsAlpha(networkDevice[k])
    ensures var j := LastAlpha(networkDevice);
      Prefix(networkDevice, j + 1) == networkDevice[..j + 1] &&
      Strings.IsAlpha(networkDevice[j]) &&
      forall k :: j < k < |networkDevice| ==> !Strings.IsAlpha(networkDevice[k])
  {
    LastAlphaIsAlpha(networkDevice);
  }
}
