/** The byte scanners used by the codec and by line assembly. Each scanner
    is given as a function (used by other functions, which cannot call
    methods) and as the loop the source runs, proved equal to it. */
module Utils {
  import opened Codes

  // ---------------------------------------------------------------------
  // scanUntilIAC
  // ---------------------------------------------------------------------

  /** Index of the first IAC byte of `s`, or `|s|` when there is none. */
  function UntilIAC(s: seq<byte>): (k: nat)
    ensures k <= |s|
    ensures k < |s| ==> s[k] == IAC
    ensures forall j :: 0 <= j < k ==> s[j] != IAC
  {
    if |s| == 0 || s[0] == IAC then 0 else 1 + UntilIAC(s[1..])
  }

  /** The `for` loop with early return of scanUntilIAC. */
  method ScanUntilIAC(data: seq<byte>) returns (k: nat)
    ensures k == UntilIAC(data)
  {
    var i := 0;
    while i < |data|
      invariant 0 <= i <= |data|
      invariant forall j :: 0 <= j < i ==> data[j] != IAC
    {
      if data[i] == IAC {
        return i;
      }
      i := i + 1;
    }
    return |data|;
  }

  // ---------------------------------------------------------------------
  // scanUntilIACSE
  // ---------------------------------------------------------------------

  /** Number of consecutive IAC bytes that end just before position `i`. */
  function IACRunBefore(s: seq<byte>, i: nat): nat
    requires i <= |s|
  {
    if i == 0 || s[i - 1] != IAC then 0 else 1 + IACRunBefore(s, i - 1)
  }

  /** `IAC SE` starts at `i` and its IAC is not the second half of an
      escaped `IAC IAC` pair: an even number of IACs precede it. */
  predicate UnescapedIACSE(s: seq<byte>, i: nat) {
    i + 1 < |s| && s[i] == IAC && s[i + 1] == SE && IACRunBefore(s, i) % 2 == 0
  }

  /** The scan of scanUntilIACSE from position `i`: stop after `IAC SE`,
      jump over `IAC IAC`, otherwise advance by one. */
  function ScanIACSEFrom(s: seq<byte>, i: nat): int
    requires i <= |s|
    decreases |s| - i
  {
    if i + 1 >= |s| then -1
    else if s[i] == IAC && s[i + 1] == SE then i + 2
    else if s[i] == IAC && s[i + 1] == IAC then ScanIACSEFrom(s, i + 2)
    else ScanIACSEFrom(s, i + 1)
  }

  /** The scan visits only positions that are not the second half of an
      escaped pair, and so finds the first unescaped `IAC SE` at or after `i`. */
  lemma {:induction false} ScanIACSEFromFinds(s: seq<byte>, i: nat)
    requires i <= |s|
    requires i < |s| && s[i] == IAC ==> IACRunBefore(s, i) % 2 == 0
    ensures var k := ScanIACSEFrom(s, i);
      || (k == -1 && forall j :: i <= j < |s| ==> !UnescapedIACSE(s, j))
      || (i + 2 <= k <= |s| && UnescapedIACSE(s, k - 2)
          && forall j :: i <= j < k - 2 ==> !UnescapedIACSE(s, j))
    decreases |s| - i
  {
    if i + 1 >= |s| {
    } else if s[i] == IAC && s[i + 1] == SE {
    } else if s[i] == IAC && s[i + 1] == IAC {
      assert IACRunBefore(s, i + 1) == 1 + IACRunBefore(s, i);
      if i + 2 < |s| && s[i + 2] == IAC {
        assert IACRunBefore(s, i + 2) == 2 + IACRunBefore(s, i);
      }
      ScanIACSEFromFinds(s, i + 2);
    } else {
      if i + 1 < |s| && s[i + 1] == IAC {
        assert s[i] != IAC;
        assert IACRunBefore(s, i + 1) == 0;
      }
      ScanIACSEFromFinds(s, i + 1);
    }
  }

  /** scanUntilIACSE: the length up to and including the first unescaped
      `IAC SE`, or -1 when there is none. */
  function UntilIACSE(s: seq<byte>): (k: int)
    ensures k == -1 || 2 <= k <= |s|
    ensures k == -1 <==> forall j :: 0 <= j < |s| ==> !UnescapedIACSE(s, j)
    ensures k != -1 ==> s[k - 2] == IAC && s[k - 1] == SE && UnescapedIACSE(s, k - 2)
    ensures k != -1 ==> forall j :: 0 <= j < k - 2 ==> !UnescapedIACSE(s, j)
  {
    ScanIACSEFromFinds(s, 0);
    ScanIACSEFrom(s, 0)
  }

  /** The `while` loop of scanUntilIACSE, advancing by one or two bytes. */
  method ScanUntilIACSE(data: seq<byte>) returns (k: int)
    ensures k == UntilIACSE(data)
  {
    var i := 0;
    while i < |data| - 1
      invariant 0 <= i <= |data|
      invariant ScanIACSEFrom(data, i) == ScanIACSEFrom(data, 0)
    {
      if data[i] == IAC {
        if data[i + 1] == SE {
          return i + 2;
        } else if data[i + 1] == IAC {
          i := i + 2;
          continue;
        }
      }
      i := i + 1;
    }
    return -1;
  }

  // ---------------------------------------------------------------------
  // appendBytes
  // ---------------------------------------------------------------------

  /** appendBytes: a new array holding `original` followed by `newBytes`;
      neither input is written. The session and the incoming stage keep
      their buffers as sequences, where this is `+`. */
  method AppendBytes(original: array<byte>, newBytes: array<byte>) returns (combined: array<byte>)
    ensures fresh(combined)
    ensures combined.Length == original.Length + newBytes.Length
    ensures combined[..] == original[..] + newBytes[..]
  {
    combined := new byte[original.Length + newBytes.Length];
    forall i | 0 <= i < original.Length {
      combined[i] := original[i];
    }
    forall i | 0 <= i < newBytes.Length {
      combined[original.Length + i] := newBytes[i];
    }
  }

  // ---------------------------------------------------------------------
  // scanForLineEndings
  // ---------------------------------------------------------------------

  /** A `CR LF` pair starts at `i`. */
  predicate CRLFAt(s: seq<byte>, i: int) {
    0 <= i && i + 1 < |s| && s[i] == CR && s[i + 1] == LF
  }

  /** The least `CR LF` position at or after `i`, or -1. */
  function LineEndFrom(s: seq<byte>, i: nat): (k: int)
    requires i <= |s|
    ensures k == -1 ==> forall j :: i <= j < |s| ==> !CRLFAt(s, j)
    ensures k != -1 ==> i <= k && CRLFAt(s, k) && forall j :: i <= j < k ==> !CRLFAt(s, j)
    decreases |s| - i
  {
    if i + 1 >= |s| then -1
    else if s[i] == CR && s[i + 1] == LF then i
    else LineEndFrom(s, i + 1)
  }

  /** scanForLineEndings: index of the first `CR LF` pair, or -1. */
  function LineEnd(s: seq<byte>): (k: int)
    ensures k == -1 <==> forall j :: 0 <= j < |s| ==> !CRLFAt(s, j)
    ensures k != -1 ==> 0 <= k < |s| - 1 && CRLFAt(s, k)
    ensures k != -1 ==> forall j :: 0 <= j < k ==> !CRLFAt(s, j)
  {
    LineEndFrom(s, 0)
  }

  /** The `for` loop with `break` of scanForLineEndings. */
  method ScanForLineEndings(data: seq<byte>) returns (lineEndIndex: int)
    ensures lineEndIndex == LineEnd(data)
  {
    lineEndIndex := -1;
    var i := 0;
    while i < |data| - 1
      invariant 0 <= i
      invariant |data| > 0 ==> i <= |data| - 1
      invariant lineEndIndex == -1
      invariant forall j :: 0 <= j < i ==> !CRLFAt(data, j)
    {
      if data[i] == CR && data[i + 1] == LF {
        assert CRLFAt(data, i);
        lineEndIndex := i;
        break;
      }
      i := i + 1;
    }
  }
}
