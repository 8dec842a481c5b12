/** 8.3 names: how the driver turns a file name into the eleven bytes of a directory entry. */
module FatNames {
  import opened Bytes
  import opened FatLayout

  const SPACE: byte := 32
  const DOT: byte := 46

  predicate CString(s: seq<byte>) {
    0 !in s
  }

  function Upper(c: byte): byte {
    if 97 <= c <= 122 then c - 32 else c
  }

  /** At most n upper-cased bytes from the front of s, up to a dot if stop. */
  function Field(s: seq<byte>, n: nat, stop: bool): (r: seq<byte>)
    ensures |r| <= n && |r| <= |s|
  {
    if n == 0 || s == [] || (stop && s[0] == DOT) then []
    else [Upper(s[0])] + Field(s[1..], n - 1, stop)
  }

  function Pad(s: seq<byte>, n: nat): (r: seq<byte>)
    requires |s| <= n
    ensures |r| == n
  {
    s + seq(n - |s|, _ => SPACE)
  }

  function Stem(name: seq<byte>): seq<byte> {
    Field(name, 8, true)
  }

  function Extension(name: seq<byte>): (r: seq<byte>)
    ensures |r| <= 3
  {
    var i := |Stem(name)|;
    if i < |name| && name[i] == DOT then Field(name[i + 1..], 3, false) else []
  }

  /** The name's key: stem and extension, each padded with spaces. */
  function KeyOf(name: seq<byte>): Key {
    Pad(Stem(name), 8) + Pad(Extension(name), 3)
  }

  /** Copies at most n bytes of name[from..], upper-cased, into out[at..]; a dot ends the copy if stop. */
  method CopyField(name: seq<byte>, from: nat, out: seq<byte>, at: nat, n: nat, stop: bool)
    returns (r: seq<byte>, i: nat)
    requires from <= |name| && at + n <= |out|
    ensures var f := Field(name[from..], n, stop); i == from + |f| && r == out[..at] + f + out[at + |f|..]
  {
    ghost var done: seq<byte> := [];
    i := from;
    var j := at;
    r := out;
    while i < |name| && !(stop && name[i] == DOT) && j < at + n
      invariant from <= i <= |name| && at <= j <= at + n && j - at == i - from == |done|
      invariant |r| == |out|
      invariant forall k :: 0 <= k < |out| ==> r[k] == if at <= k < j then done[k - at] else out[k]
      invariant FieldLeft(name, from, n, stop, done, i)
    {
      FieldNext(name, from, n, stop, done, i);
      r := r[j := Upper(name[i])];
      done := done + [Upper(name[i])];
      i, j := i + 1, j + 1;
    }
    FieldDone(name, from, n, stop, done, i);
    Placed(out, r, at, done);
  }

  lemma Placed(out: seq<byte>, r: seq<byte>, at: nat, f: seq<byte>)
    requires |r| == |out| && at + |f| <= |out|
    requires forall k :: 0 <= k < |out| ==> r[k] == if at <= k < at + |f| then f[k - at] else out[k]
    ensures r == out[..at] + f + out[at + |f|..]
  {
  }

  /** `done` is the field's front, copied from name[from..i]. */
  ghost predicate FieldLeft(name: seq<byte>, from: nat, n: nat, stop: bool, done: seq<byte>, i: nat) {
    && from <= i <= |name| && |done| == i - from && |done| <= n
    && Field(name[from..], n, stop) == done + Field(name[i..], n - |done|, stop)
  }

  lemma FieldNext(name: seq<byte>, from: nat, n: nat, stop: bool, done: seq<byte>, i: nat)
    requires FieldLeft(name, from, n, stop, done, i) && i < |name| && !(stop && name[i] == DOT) && |done| < n
    ensures FieldLeft(name, from, n, stop, done + [Upper(name[i])], i + 1)
  {
    assert name[i..][1..] == name[i + 1..];
    var rest := Field(name[i + 1..], n - |done| - 1, stop);
    assert done + ([Upper(name[i])] + rest) == (done + [Upper(name[i])]) + rest;
  }

  lemma FieldDone(name: seq<byte>, from: nat, n: nat, stop: bool, done: seq<byte>, i: nat)
    requires FieldLeft(name, from, n, stop, done, i) && (i == |name| || (stop && name[i] == DOT) || |done| == n)
    ensures Field(name[from..], n, stop) == done
  {
    assert Field(name[i..], n - |done|, stop) == [];
  }

  /** The eleven bytes as the driver fills them in. */
  method NameTo83(name: seq<byte>) returns (out: seq<byte>)
    requires CString(name)
    ensures out == KeyOf(name)
  {
    var blank: seq<byte> := seq(11, _ => SPACE);
    assert name[0..] == name;
    var i;
    out, i := CopyField(name, 0, blank, 0, 8, true);
    assert out == Pad(Stem(name), 8) + Pad([], 3);
    if i < |name| && name[i] == DOT {
      ghost var stem := out[..8];
      out, i := CopyField(name, i + 1, out, 8, 3, false);
      assert out == stem + Pad(Extension(name), 3);
    }
  }

  /** Only a name whose own first byte is the deletion marker gets a key that reads as deleted. */
  lemma KeyFirst(name: seq<byte>)
    requires CString(name) && name != []
    ensures KeyOf(name)[0] != 0
    ensures KeyOf(name)[0] == DELETED <==> name[0] == DELETED
  {
  }

  // ---- what a key is, in bytes ----

  /** The byte i of the field that starts at s: a letter in upper case, or the byte as it is. */
  lemma {:induction false} FieldBytes(s: seq<byte>, n: nat, stop: bool, m: nat)
    requires m <= n && m <= |s| && (stop ==> forall i :: 0 <= i < m ==> s[i] != 46)
    requires m == n || m == |s| || (stop && s[m] == 46)
    ensures |Field(s, n, stop)| == m
    ensures forall i :: 0 <= i < m ==> Field(s, n, stop)[i] == if 97 <= s[i] <= 122 then s[i] - 32 else s[i]
    decreases m
  {
    if m > 0 {
      FieldBytes(s[1..], n - 1, stop, m - 1);
    }
  }

  /**
    The eleven bytes of every name. Its first m bytes, up to a dot and at most 8, come first; after a dot at m
    come at most three more; small letters lose 32; the rest is blank, and a longer name is cut.
   */
  lemma KeyBytes(name: seq<byte>, m: nat, i: nat)
    requires m <= 8 && m <= |name| && (forall k :: 0 <= k < m ==> name[k] != 46) && i < 11
    requires m == 8 || m == |name| || name[m] == 46
    ensures var p := if i < 8 then i else m + 1 + (i - 8);
            var taken := if i < 8 then i < m else m < |name| && name[m] == 46 && p < |name|;
            KeyOf(name)[i] == if !taken then 32 else if 97 <= name[p] <= 122 then name[p] - 32 else name[p]
  {
    FieldBytes(name, 8, true, m);
    assert |Pad(Stem(name), 8)| == 8;
    if i >= 8 {
      ExtensionByte(name, m, i - 8);
    }
  }

  lemma ExtensionByte(name: seq<byte>, m: nat, i: nat)
    requires m <= |name| && |Stem(name)| == m && i < 3
    ensures var p := m + 1 + i;
            Pad(Extension(name), 3)[i]
            == if !(m < |name| && name[m] == 46 && p < |name|) then 32
               else if 97 <= name[p] <= 122 then name[p] - 32 else name[p]
  {
    if m < |name| && name[m] == 46 {
      var rest := name[m + 1..];
      FieldBytes(rest, 3, false, if |rest| <= 3 then |rest| else 3);
    }
  }

  /** Where the bytes before the first dot, at most 8 of them, end. */
  lemma {:induction false} StemEnd(name: seq<byte>, n: nat) returns (m: nat)
    ensures m <= n && m <= |name| && forall k :: 0 <= k < m ==> name[k] != 46
    ensures m == n || m == |name| || name[m] == 46
    decreases |name|
  {
    if n == 0 || name == [] || name[0] == 46 {
      m := 0;
    } else {
      m := StemEnd(name[1..], n - 1);
      m := m + 1;
      assert forall k :: 0 < k < m ==> name[k] == name[1..][k - 1];
    }
  }

  /** The same byte, or the same letter in the other case. */
  predicate SameLetter(a: byte, b: byte) {
    a == b || (97 <= a <= 122 && b == a - 32) || (97 <= b <= 122 && a == b - 32)
  }

  /** Names that differ in case only. */
  predicate SameLetters(s: seq<byte>, t: seq<byte>) {
    |s| == |t| && forall i :: 0 <= i < |s| ==> SameLetter(s[i], t[i])
  }

  /** Case makes no difference. */
  lemma KeyIgnoresCase(s: seq<byte>, t: seq<byte>)
    requires SameLetters(s, t)
    ensures KeyOf(s) == KeyOf(t)
  {
    var m := StemEnd(s, 8);
    assert forall k :: 0 <= k < m ==> SameLetter(s[k], t[k]);
    assert m < |s| ==> SameLetter(s[m], t[m]);
    forall i | 0 <= i < 11
      ensures KeyOf(s)[i] == KeyOf(t)[i]
    {
      KeyBytes(s, m, i);
      KeyBytes(t, m, i);
    }
  }
}
