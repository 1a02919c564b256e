/** Byte strings, searching in them, and the result types shared by every module. */
module Bytes {

  type byte = x: int | 0 <= x < 256

  type bytes = seq<byte>

  datatype Option<+T> = None | Some(value: T)

  datatype Result<+T, +E> = Ok(value: T) | Err(error: E)

  const LF: byte := 10
  const CR: byte := 13
  const LBRACE: byte := 123
  const RBRACE: byte := 125

  function Min(a: int, b: int): (m: int)
    ensures m <= a && m <= b && (m == a || m == b)
  {
    if a <= b then a else b
  }

  function Max(a: int, b: int): (m: int)
    ensures m >= a && m >= b && (m == a || m == b)
  {
    if a >= b then a else b
  }

  /** `pat` stands at offset `i` of `text`. */
  predicate OccursAt(text: bytes, i: int, pat: bytes) {
    0 <= i && i + |pat| <= |text| && text[i..i + |pat|] == pat
  }

  ghost predicate Contains(text: bytes, pat: bytes) {
    exists i :: OccursAt(text, i, pat)
  }

  /** An occurrence, byte by byte. */
  lemma OccursAtBytes(text: bytes, i: int, pat: bytes)
    requires OccursAt(text, i, pat)
    ensures forall k :: 0 <= k < |pat| ==> text[i + k] == pat[k]
  {
    forall k | 0 <= k < |pat|
      ensures text[i + k] == pat[k]
    {
      assert text[i..i + |pat|][k] == text[i + k];
    }
  }

  lemma OccursFirst(text: bytes, i: int, pat: bytes)
    requires OccursAt(text, i, pat) && pat != []
    ensures text[i] == pat[0]
  {
    assert text[i..i + |pat|][0] == text[i];
  }

  /** An occurrence that ends inside a prefix is an occurrence in the prefix. */
  lemma OccursInPrefix(prefix: bytes, text: bytes, i: int, pat: bytes)
    requires prefix <= text && i + |pat| <= |prefix|
    ensures OccursAt(text, i, pat) <==> OccursAt(prefix, i, pat)
  {
    if 0 <= i {
      assert text[i..i + |pat|] == prefix[i..i + |pat|];
    }
  }

  lemma OccursInRight(a: bytes, b: bytes, i: int, pat: bytes)
    requires |a| <= i
    ensures OccursAt(a + b, i, pat) <==> OccursAt(b, i - |a|, pat)
  {
    if i + |pat| <= |a + b| {
      assert (a + b)[i..i + |pat|] == b[i - |a|..i - |a| + |pat|];
    }
  }

  /** An occurrence in a slice is an occurrence in the whole, and back when it fits. */
  lemma OccursInSlice(text: bytes, lo: int, hi: int, i: int, pat: bytes)
    requires 0 <= lo <= hi <= |text|
    requires i + |pat| <= hi - lo
    ensures OccursAt(text[lo..hi], i, pat) <==> 0 <= i && OccursAt(text, lo + i, pat)
  {
    if 0 <= i {
      var inner, outer := text[lo..hi][i..i + |pat|], text[lo + i..lo + i + |pat|];
      assert forall k :: 0 <= k < |pat| ==> inner[k] == outer[k];
      assert inner == outer;
    }
  }

  lemma OccursAfterDrop(text: bytes, n: nat, i: nat, pat: bytes)
    requires n <= |text|
    ensures OccursAt(text[n..], i, pat) <==> OccursAt(text, n + i, pat)
  {
    if n + i + |pat| <= |text| {
      assert text[n..][i..i + |pat|] == text[n + i..n + i + |pat|];
    }
  }

  /** Where `pat` first stands at or after `from`. */
  function FindFrom(text: bytes, pat: bytes, from: nat): (r: Option<nat>)
    requires from <= |text|
    ensures r.Some? ==> from <= r.value && OccursAt(text, r.value, pat)
    ensures r.Some? ==> forall k :: from <= k < r.value ==> !OccursAt(text, k, pat)
    ensures r.None? ==> forall k :: from <= k ==> !OccursAt(text, k, pat)
    decreases |text| - from
  {
    if OccursAt(text, from, pat) then Some(from)
    else if from < |text| then FindFrom(text, pat, from + 1)
    else None
  }

  function Find(text: bytes, pat: bytes): (r: Option<nat>)
    ensures r.Some? ==> OccursAt(text, r.value, pat)
    ensures r.Some? ==> forall k :: k < r.value ==> !OccursAt(text, k, pat)
    ensures r.None? ==> forall k :: !OccursAt(text, k, pat)
  {
    FindFrom(text, pat, 0)
  }

  /** More bytes at the end never move the first place where a pattern stands. */
  lemma FindInPrefix(text: bytes, whole: bytes, pat: bytes)
    requires text <= whole
    ensures match Find(text, pat)
            case Some(k) => Find(whole, pat) == Some(k)
            case None => Find(whole, pat).Some? ==> Find(whole, pat).value + |pat| > |text|
  {
    var inner, outer := Find(text, pat), Find(whole, pat);
    if inner.Some? {
      OccursInPrefix(text, whole, inner.value, pat);
    }
    if outer.Some? && outer.value + |pat| <= |text| {
      OccursInPrefix(text, whole, outer.value, pat);
    }
  }

  /** The concatenation of a list of byte blocks. */
  function Flatten(blocks: seq<bytes>): (r: bytes) {
    if blocks == [] then [] else blocks[0] + Flatten(blocks[1..])
  }

  lemma Assoc<T>(a: seq<T>, b: seq<T>, c: seq<T>)
    ensures a + b + c == a + (b + c)
  {
  }

  lemma {:induction false} FlattenAppend(a: seq<bytes>, b: seq<bytes>)
    ensures Flatten(a + b) == Flatten(a) + Flatten(b)
  {
    if a == [] {
      assert a + b == b;
    } else {
      FlattenAppend(a[1..], b);
      assert (a + b)[1..] == a[1..] + b;
      Assoc(a[0], Flatten(a[1..]), Flatten(b));
    }
  }

  lemma FlattenSnoc(a: seq<bytes>, x: bytes)
    ensures Flatten(a + [x]) == Flatten(a) + x
  {
    FlattenAppend(a, [x]);
    assert [x][1..] == [];
  }

  lemma FlattenPair(a: bytes, b: bytes)
    ensures Flatten([a]) == a && Flatten([a, b]) == a + b
  {
    assert Flatten([]) == [] && |[a][1..]| == 0;
    assert [a, b][1..] == [b] && |[b][1..]| == 0;
  }

  function CharByte(c: char): byte
    requires c < 128 as char
  {
    c as byte
  }

  /** The bytes of an ASCII string. */
  function Ascii(s: string): (r: bytes)
    requires forall k :: 0 <= k < |s| ==> s[k] < 128 as char
    ensures |r| == |s|
    ensures forall k :: 0 <= k < |s| ==> r[k] == s[k] as int
  {
    seq(|s|, k requires 0 <= k < |s| => CharByte(s[k]))
  }
}
