/**
 * The string handling of the loader: READSTRPAD's removal of the blank
 * padding of a fixed-width field, and the NUL-terminated reading of a buffer
 * that `strlen`, `strcpy` and `strcmp` perform.
 */
module CStrings {
  import opened Bytes

  const Space: byte := 0x20
  const Nul: byte := 0

  /** The field without its trailing run of spaces. */
  function TrimRight(f: seq<byte>): (r: seq<byte>)
    ensures r <= f
    ensures r == [] || r[|r| - 1] != Space
    ensures forall j | |r| <= j < |f| :: f[j] == Space
  {
    if f != [] && f[|f| - 1] == Space then TrimRight(f[..|f| - 1]) else f
  }

  /** The three facts TrimRight ensures determine its result. */
  lemma {:induction false} TrimRightUnique(f: seq<byte>, r: seq<byte>)
    requires r <= f
    requires r == [] || r[|r| - 1] != Space
    requires forall j | |r| <= j < |f| :: f[j] == Space
    ensures TrimRight(f) == r
  {
    if |r| < |f| {
      assert f[|f| - 1] == Space;
      assert r <= f[..|f| - 1];
      TrimRightUnique(f[..|f| - 1], r);
    }
  }

  /** A field made only of spaces trims to the empty string, and only such a field does. */
  lemma TrimRightEmpty(f: seq<byte>)
    ensures TrimRight(f) == [] <==> forall j | 0 <= j < |f| :: f[j] == Space
  {
    if forall j | 0 <= j < |f| :: f[j] == Space {
      TrimRightUnique(f, []);
    }
  }

  /** A string that does not end in a space survives being space-padded and trimmed. */
  lemma TrimRightPadded(s: seq<byte>, n: nat)
    requires s == [] || s[|s| - 1] != Space
    ensures TrimRight(s + seq(n, _ => Space)) == s
  {
    TrimRightUnique(s + seq(n, _ => Space), s);
  }

  /** The buffer up to, not including, its first NUL (what `strlen` measures). */
  function CString(b: seq<byte>): (r: seq<byte>)
    ensures r <= b
    ensures forall j | 0 <= j < |r| :: r[j] != Nul
    ensures |r| < |b| ==> b[|r|] == Nul
  {
    if b == [] || b[0] == Nul then [] else [b[0]] + CString(b[1..])
  }

  /** The three facts CString ensures determine its result. */
  lemma {:induction false} CStringUnique(b: seq<byte>, r: seq<byte>)
    requires r <= b
    requires forall j | 0 <= j < |r| :: r[j] != Nul
    requires |r| < |b| ==> b[|r|] == Nul
    ensures CString(b) == r
  {
    if r != [] {
      assert b[0] == r[0] != Nul;
      CStringUnique(b[1..], r[1..]);
      assert r == [r[0]] + r[1..];
    }
  }

  /** What READSTRPAD leaves in a field's buffer: the trimmed text, then a NUL in place of each removed space. */
  function Blanked(f: seq<byte>): (r: seq<byte>)
    ensures |r| == |f|
    ensures r[..|TrimRight(f)|] == TrimRight(f)
    ensures forall j | |TrimRight(f)| <= j < |f| :: r[j] == Nul
  {
    var t := TrimRight(f);
    t + seq(|f| - |t|, _ => Nul)
  }

  /** Read as a C string, a blanked field is its trimmed text cut at its first NUL. */
  lemma CStringOfBlanked(f: seq<byte>)
    ensures CString(Blanked(f)) == CString(TrimRight(f))
  {
    var t := TrimRight(f);
    var c := CString(t);
    var b := Blanked(f);
    assert c <= b;
    if |c| == |t| && |c| < |b| {
      assert b[|c|] == Nul;
    }
    CStringUnique(b, c);
  }

  /** A string with no NUL in it reads back whole. */
  lemma CStringNoNul(s: seq<byte>)
    requires forall j | 0 <= j < |s| :: s[j] != Nul
    ensures CString(s) == s
  {
    CStringUnique(s, s);
  }
}
