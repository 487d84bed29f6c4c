/** Fixed-length strings of src/dimserver/common/value.h: trailing blanks do not count in comparisons. */
module CharString {
  import opened Bytes

  const BLANK: Byte := 32
  const NUL: Byte := 0

  /** size_ is |data|; the terminator behind the last character is left away. */
  datatype CharString = CharString(data: seq<Byte>)

  /** The length without trailing blanks. */
  function TrimmedLength(s: seq<Byte>): (n: nat)
    ensures n <= |s| && (n > 0 ==> s[n - 1] != BLANK)
    ensures forall i :: n <= i < |s| ==> s[i] == BLANK
  {
    if s != [] && s[|s| - 1] == BLANK then TrimmedLength(s[..|s| - 1]) else |s|
  }

  function Trimmed(s: seq<Byte>): seq<Byte> {
    s[..TrimmedLength(s)]
  }

  /** Lexicographic order of unsigned bytes, a proper prefix first. */
  predicate LexLess(a: seq<Byte>, b: seq<Byte>) {
    if b == [] then false
    else if a == [] then true
    else if a[0] != b[0] then a[0] < b[0]
    else LexLess(a[1..], b[1..])
  }

  /** The first n characters up to a NUL, filled up with blanks to n. */
  function Padded(str: seq<Byte>, n: nat): (data: seq<Byte>)
    ensures |data| == n
    decreases n
  {
    if n == 0 then []
    else if str == [] || str[0] == NUL then [BLANK] + Padded([], n - 1)
    else [str[0]] + Padded(str[1..], n - 1)
  }

  // ---------- Order ----------

  lemma {:induction false} LexIrreflexive(a: seq<Byte>)
    ensures !LexLess(a, a)
  {
    if a != [] {
      LexIrreflexive(a[1..]);
    }
  }

  lemma {:induction false} LexTransitive(a: seq<Byte>, b: seq<Byte>, c: seq<Byte>)
    requires LexLess(a, b) && LexLess(b, c)
    ensures LexLess(a, c)
  {
    if a != [] && a[0] == b[0] && b[0] == c[0] {
      LexTransitive(a[1..], b[1..], c[1..]);
    }
  }

  /** Two strings neither of which is less are equal. */
  lemma {:induction false} LexTotal(a: seq<Byte>, b: seq<Byte>)
    ensures LexLess(a, b) || LexLess(b, a) || a == b
  {
    if a != [] && b != [] && a[0] == b[0] {
      LexTotal(a[1..], b[1..]);
      assert a == [a[0]] + a[1..] && b == [b[0]] + b[1..];
    }
  }

  /** The order is decided at the first difference. */
  lemma {:induction false} LexAt(a: seq<Byte>, b: seq<Byte>, n: nat)
    requires n <= |a| && n <= |b| && a[..n] == b[..n]
    requires n == |a| || n == |b| || a[n] != b[n]
    ensures LexLess(a, b) <==> n < |b| && (n == |a| || a[n] < b[n])
    decreases n
  {
    if n > 0 {
      assert a[..n][0] == a[0] && b[..n][0] == b[0];
      assert a[1..][..n - 1] == a[..n][1..] && b[1..][..n - 1] == b[..n][1..];
      LexAt(a[1..], b[1..], n - 1);
    }
  }

  // ---------- The program's loops ----------

  method ActualLength(c: CharString) returns (end: nat)
    ensures end == TrimmedLength(c.data)
  {
    end := |c.data|;
    while end > 0 && c.data[end - 1] == BLANK
      invariant end <= |c.data| && TrimmedLength(c.data[..end]) == TrimmedLength(c.data)
    {
      assert c.data[..end][..end - 1] == c.data[..end - 1];
      end := end - 1;
    }
  }

  /** memcmp: the place of the first difference among the first n bytes, or n. */
  method Mismatch(a: seq<Byte>, b: seq<Byte>, n: nat) returns (i: nat)
    requires n <= |a| && n <= |b|
    ensures i <= n && a[..i] == b[..i] && (i < n ==> a[i] != b[i])
  {
    i := 0;
    while i < n && a[i] == b[i]
      invariant i <= n && a[..i] == b[..i]
    {
      i := i + 1;
    }
  }

  /** operator== */
  method Equals(a: CharString, b: CharString) returns (r: bool)
    ensures r <==> Trimmed(a.data) == Trimmed(b.data)
  {
    var end1 := ActualLength(a);
    var end2 := ActualLength(b);
    if end1 != end2 {
      return false;
    }
    var i := Mismatch(a.data, b.data, end1);
    r := i == end1;
    if !r {
      assert Trimmed(a.data)[i] != Trimmed(b.data)[i];
    }
  }

  /** operator< */
  method Less(a: CharString, b: CharString) returns (r: bool)
    ensures r <==> LexLess(Trimmed(a.data), Trimmed(b.data))
  {
    var end1 := ActualLength(a);
    var end2 := ActualLength(b);
    var n := if end1 < end2 then end1 else end2;
    var i := Mismatch(a.data, b.data, n);
    ghost var s, t := Trimmed(a.data), Trimmed(b.data);
    assert s[..i] == a.data[..i] && t[..i] == b.data[..i];
    LexAt(s, t, i);
    if i < n {
      return a.data[i] < b.data[i];
    }
    r := end1 < end2;
  }

  /** The constructor from a C string.  `str` is the memory from the pointer on; a string that is not
      ended in it counts as longer than `size`. */
  method FromMemory(str: seq<Byte>, size: nat) returns (c: CharString)
    ensures c == CharString(Padded(str, size))
  {
    var length: nat := 0;
    while length < |str| && str[length] != NUL
      invariant length <= |str| && forall i :: 0 <= i < length ==> str[i] != NUL
    {
      length := length + 1;
    }
    var copyLen := if size < length then size else length;
    var data := new Byte[size](_ => NUL);
    for i := 0 to copyLen
      invariant data[..i] == str[..i]
    {
      data[i] := str[i];
    }
    for i := copyLen to size
      invariant data[..copyLen] == str[..copyLen] && forall j :: copyLen <= j < i ==> data[j] == BLANK
    {
      data[i] := BLANK;
    }
    PaddedAt(str, size, length);
    assert data[..] == Padded(str, size);
    c := CharString(data[..]);
  }

  /** What the constructor's two steps give: the characters before the first NUL, then blanks. */
  lemma {:induction false} PaddedAt(str: seq<Byte>, n: nat, length: nat)
    requires length <= |str| && (forall i :: 0 <= i < length ==> str[i] != NUL)
    requires length == |str| || str[length] == NUL
    ensures forall i :: 0 <= i < n ==> Padded(str, n)[i] == if i < length then str[i] else BLANK
    decreases n
  {
    if n > 0 {
      if length == 0 {
        PaddedAt([], n - 1, 0);
      } else {
        PaddedAt(str[1..], n - 1, length - 1);
      }
    }
  }

  /** A string without NUL is kept as it is, whatever follows it in memory. */
  lemma {:induction false} PaddedKeeps(s: seq<Byte>, tail: seq<Byte>)
    requires 0 !in s
    ensures Padded(s + tail, |s|) == s
  {
    if s != [] {
      assert (s + tail)[1..] == s[1..] + tail;
      PaddedKeeps(s[1..], tail);
    }
  }

  /** A string with a NUL is not kept. */
  lemma {:induction false} PaddedLoses(s: seq<Byte>, tail: seq<Byte>)
    requires 0 in s
    ensures Padded(s + tail, |s|) != s
  {
    assert (s + tail)[0] == s[0];
    if s[0] != NUL {
      assert (s + tail)[1..] == s[1..] + tail;
      PaddedLoses(s[1..], tail);
      assert Padded(s + tail, |s|)[1..] == Padded(s[1..] + tail, |s| - 1);
    } else {
      assert Padded(s + tail, |s|)[0] == BLANK;
    }
  }
}
