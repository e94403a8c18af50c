/**
 * The C string and memory library of the kernel (kernel/lib/string.c).
 *
 * Memory is one byte array; a pointer is an index into it, so that the
 * overlap check of memmove and the alignment checks of memcpy and memset can
 * be stated. The functions that write are methods with their loops over
 * that array. The read-only scans are functions over the bytes from the
 * pointer on (`mem[p..]`), and a pointer they return is an offset from it.
 */
module Strings {
  import opened Wrappers

  /** `(unsigned char)c`: the byte c converts to. */
  function ToByte(c: int): (r: byte)
    ensures (c - r) % 256 == 0
  {
    c % 256
  }

  // ---------------------------------------------------------------------
  // NUL-terminated strings
  // ---------------------------------------------------------------------

  /** strlen over the bytes from the pointer on: the index of the first NUL. */
  function Strlen(a: seq<byte>): (r: nat)
    requires 0 in a
    ensures r < |a| && a[r] == 0
    ensures forall k :: 0 <= k < r ==> a[k] != 0
  {
    if a[0] == 0 then 0
    else
      NulInRest(a);
      1 + Strlen(a[1..])
  }

  lemma NulInRest(a: seq<byte>)
    requires 0 in a && a[0] != 0
    ensures 0 in a[1..]
  {
    var i :| 0 <= i < |a| && a[i] == 0;
    assert a[1..][i - 1] == 0;
  }

  /** The characters of the string, without its NUL. */
  function Str(a: seq<byte>): seq<byte>
    requires 0 in a
  {
    a[..Strlen(a)]
  }

  /** Any NUL at n with none before it is where strlen stops. */
  lemma StrlenUnique(a: seq<byte>, n: nat)
    requires n < |a| && a[n] == 0 && forall k :: 0 <= k < n ==> a[k] != 0
    ensures 0 in a && Strlen(a) == n
  {
  }

  /** A string's first character followed by the rest of it. */
  lemma StrCons(a: seq<byte>)
    requires 0 in a && a[0] != 0
    ensures 0 in a[1..] && Strlen(a) == 1 + Strlen(a[1..])
    ensures Str(a) == [a[0]] + Str(a[1..])
  {
    NulInRest(a);
    var n := Strlen(a);
    assert a[..n] == [a[0]] + a[1..][..n - 1];
  }

  /** A string depends only on its bytes up to its NUL. */
  lemma StrFrame(a: seq<byte>, b: seq<byte>)
    requires 0 in a && Strlen(a) < |b| && a[..Strlen(a) + 1] == b[..Strlen(a) + 1]
    ensures 0 in b && Strlen(b) == Strlen(a) && Str(b) == Str(a)
  {
    var n := Strlen(a);
    assert b[n] == a[..n + 1][n];
    forall k | 0 <= k < n
      ensures b[k] != 0
    {
      assert b[k] == a[..n + 1][k];
    }
    StrlenUnique(b, n);
    assert Str(b) == a[..n + 1][..n];
  }

  lemma ConsEq(x: byte, a: seq<byte>, b: seq<byte>)
    ensures [x] + a == [x] + b <==> a == b
  {
    if [x] + a == [x] + b {
      assert a == ([x] + a)[1..];
    }
  }

  // ---------------------------------------------------------------------
  // Lexicographic order, the meaning of the comparisons
  // ---------------------------------------------------------------------

  /** a sorts before b byte by byte, a proper prefix before the longer sequence. */
  predicate LexLess(a: seq<byte>, b: seq<byte>)
    decreases |a|
  {
    if |a| == 0 then |b| > 0
    else if |b| == 0 then false
    else if a[0] != b[0] then a[0] < b[0]
    else LexLess(a[1..], b[1..])
  }

  // ---------------------------------------------------------------------
  // memcmp, strcmp, strncmp
  // ---------------------------------------------------------------------

  /** memcmp: the difference of the first differing bytes among the first n, or 0. */
  function Memcmp(a: seq<byte>, b: seq<byte>, n: nat): (r: int)
    requires n <= |a| && n <= |b|
    ensures r == 0 <==> a[..n] == b[..n]
    decreases n
  {
    if n == 0 then 0
    else if a[0] != b[0] then
      assert a[..n][0] != b[..n][0];
      a[0] as int - b[0] as int
    else
      assert a[..n] == [a[0]] + a[1..][..n - 1];
      assert b[..n] == [b[0]] + b[1..][..n - 1];
      ConsEq(a[0], a[1..][..n - 1], b[1..][..n - 1]);
      Memcmp(a[1..], b[1..], n - 1)
  }

  /** A negative memcmp means the first area sorts first. */
  lemma {:induction false} MemcmpOrder(a: seq<byte>, b: seq<byte>, n: nat)
    requires n <= |a| && n <= |b|
    ensures Memcmp(a, b, n) < 0 <==> LexLess(a[..n], b[..n])
    decreases n
  {
    if n > 0 {
      assert a[..n][1..] == a[1..][..n - 1];
      assert b[..n][1..] == b[1..][..n - 1];
      if a[0] == b[0] {
        MemcmpOrder(a[1..], b[1..], n - 1);
      }
    }
  }

  /** Swapping the areas negates memcmp. */
  lemma {:induction false} MemcmpSwap(a: seq<byte>, b: seq<byte>, n: nat)
    requires n <= |a| && n <= |b|
    ensures Memcmp(b, a, n) == -Memcmp(a, b, n)
    decreases n
  {
    if n > 0 && a[0] == b[0] {
      MemcmpSwap(a[1..], b[1..], n - 1);
    }
  }

  /** strcmp: advance while the bytes agree and are not NUL, then subtract them. */
  function Strcmp(a: seq<byte>, b: seq<byte>): (r: int)
    requires 0 in a && 0 in b
    ensures r == 0 <==> Str(a) == Str(b)
    decreases |a|
  {
    if a[0] != 0 && a[0] == b[0] then
      StrCons(a);
      StrCons(b);
      ConsEq(a[0], Str(a[1..]), Str(b[1..]));
      Strcmp(a[1..], b[1..])
    else
      StrHeads(a, b);
      a[0] as int - b[0] as int
  }

  /** Two strings whose first bytes differ, or that both end at once, are equal exactly in the second case. */
  lemma StrHeads(a: seq<byte>, b: seq<byte>)
    requires 0 in a && 0 in b
    requires !(a[0] != 0 && a[0] == b[0])
    ensures Str(a) == Str(b) <==> a[0] == b[0]
  {
    if a[0] != 0 {
      StrCons(a);
      assert Str(a)[0] == a[0];
    }
    if b[0] != 0 {
      StrCons(b);
      assert Str(b)[0] == b[0];
    }
  }

  /** A negative strcmp means the first string sorts first. */
  lemma {:induction false} StrcmpOrder(a: seq<byte>, b: seq<byte>)
    requires 0 in a && 0 in b
    ensures Strcmp(a, b) < 0 <==> LexLess(Str(a), Str(b))
    decreases |a|
  {
    if a[0] != 0 {
      StrCons(a);
    }
    if b[0] != 0 {
      StrCons(b);
    }
    if a[0] != 0 && a[0] == b[0] {
      assert Str(a)[1..] == Str(a[1..]);
      assert Str(b)[1..] == Str(b[1..]);
      StrcmpOrder(a[1..], b[1..]);
    }
  }

  /** Swapping the strings negates strcmp. */
  lemma {:induction false} StrcmpSwap(a: seq<byte>, b: seq<byte>)
    requires 0 in a && 0 in b
    ensures Strcmp(b, a) == -Strcmp(a, b)
    decreases |a|
  {
    if a[0] != 0 && a[0] == b[0] {
      NulInRest(a);
      NulInRest(b);
      StrcmpSwap(a[1..], b[1..]);
    }
  }

  /** The bytes strncmp may read: n of them, or up to a NUL. */
  predicate Readable(a: seq<byte>, n: nat)
  {
    n <= |a| || 0 in a
  }

  lemma ReadableNext(a: seq<byte>, n: nat)
    requires Readable(a, n) && n > 0 && a[0] != 0
    ensures Readable(a[1..], n - 1)
  {
    if n > |a| {
      NulInRest(a);
    }
  }

  /** The first n characters of the string, or all of it when it is shorter. */
  function Prefix(a: seq<byte>, n: nat): (r: seq<byte>)
    requires Readable(a, n)
    ensures |r| <= n && |r| <= |a| && r == a[..|r|]
    ensures forall k :: 0 <= k < |r| ==> r[k] != 0
    ensures |r| < n ==> |r| < |a| && a[|r|] == 0
    decreases n
  {
    if n == 0 || a[0] == 0 then []
    else
      ReadableNext(a, n);
      [a[0]] + Prefix(a[1..], n - 1)
  }

  /**
   * strncmp: 0 for n == 0; otherwise advance while more than one byte is
   * left, the bytes agree and are not NUL, then subtract them.
   */
  function Strncmp(a: seq<byte>, b: seq<byte>, n: nat): (r: int)
    requires Readable(a, n) && Readable(b, n)
    ensures r == 0 <==> Prefix(a, n) == Prefix(b, n)
    decreases n
  {
    if n == 0 then 0
    else if n > 1 && a[0] != 0 && a[0] == b[0] then
      ReadableNext(a, n);
      ReadableNext(b, n);
      ConsEq(a[0], Prefix(a[1..], n - 1), Prefix(b[1..], n - 1));
      Strncmp(a[1..], b[1..], n - 1)
    else
      PrefixHeads(a, b, n);
      a[0] as int - b[0] as int
  }

  lemma PrefixHeads(a: seq<byte>, b: seq<byte>, n: nat)
    requires Readable(a, n) && Readable(b, n) && n > 0
    requires !(n > 1 && a[0] != 0 && a[0] == b[0])
    ensures Prefix(a, n) == Prefix(b, n) <==> a[0] == b[0]
  {
    if a[0] != 0 {
      assert Prefix(a, n)[0] == a[0];
    }
    if b[0] != 0 {
      assert Prefix(b, n)[0] == b[0];
    }
    if n == 1 && a[0] != 0 {
      assert Prefix(a, n) == [a[0]];
    }
    if n == 1 && b[0] != 0 {
      assert Prefix(b, n) == [b[0]];
    }
  }

  /** A negative strncmp means the first prefix sorts first. */
  lemma {:induction false} StrncmpOrder(a: seq<byte>, b: seq<byte>, n: nat)
    requires Readable(a, n) && Readable(b, n)
    ensures Strncmp(a, b, n) < 0 <==> LexLess(Prefix(a, n), Prefix(b, n))
    decreases n
  {
    if n > 1 && a[0] != 0 && a[0] == b[0] {
      ReadableNext(a, n);
      ReadableNext(b, n);
      StrncmpOrder(a[1..], b[1..], n - 1);
    }
  }

  /** Swapping the strings negates strncmp. */
  lemma {:induction false} StrncmpSwap(a: seq<byte>, b: seq<byte>, n: nat)
    requires Readable(a, n) && Readable(b, n)
    ensures Strncmp(b, a, n) == -Strncmp(a, b, n)
    decreases n
  {
    if n > 1 && a[0] != 0 && a[0] == b[0] {
      ReadableNext(a, n);
      ReadableNext(b, n);
      StrncmpSwap(a[1..], b[1..], n - 1);
    }
  }

  // ---------------------------------------------------------------------
  // memchr, strchr, strrchr
  // ---------------------------------------------------------------------

  /** memchr: the offset of the first of n bytes equal to (unsigned char)c, or NULL. */
  function Memchr(a: seq<byte>, c: int, n: nat): (r: Option<nat>)
    requires n <= |a|
    ensures r.Some? ==> r.value < n && a[r.value] == ToByte(c)
    ensures forall k :: 0 <= k < (if r.Some? then r.value else n) ==> a[k] != ToByte(c)
    decreases n
  {
    if n == 0 then None
    else if a[0] == ToByte(c) then Some(0)
    else
      var r := Memchr(a[1..], c, n - 1);
      if r.Some? then Some(r.value + 1) else None
  }

  /** strchr: the offset of the first occurrence of (char)c, the NUL included, or NULL. */
  function Strchr(a: seq<byte>, c: int): (r: Option<nat>)
    requires 0 in a
    ensures r.Some? ==> r.value <= Strlen(a) && a[r.value] == ToByte(c)
    ensures forall k :: 0 <= k < (if r.Some? then r.value else Strlen(a) + 1) ==> a[k] != ToByte(c)
  {
    if a[0] != 0 && a[0] != ToByte(c) then
      StrCons(a);
      var r := Strchr(a[1..], c);
      if r.Some? then Some(r.value + 1) else None
    else if a[0] == ToByte(c) then Some(0)
    else None
  }

  /** Asking strchr for the NUL finds the terminator. */
  lemma StrchrNul(a: seq<byte>)
    requires 0 in a
    ensures Strchr(a, 0) == Some(Strlen(a))
  {
    assert a[Strlen(a)] == 0;
  }

  /** For a byte other than NUL, strchr finds it exactly when it is in the string. */
  lemma StrchrFinds(a: seq<byte>, c: byte)
    requires 0 in a && c != 0
    ensures Strchr(a, c).Some? <==> c in Str(a)
  {
    var r := Strchr(a, c);
    if r.Some? {
      assert Str(a)[r.value] == c;
    }
  }

  /**
   * strrchr's loop over the string at offset i of the original pointer,
   * remembering in `found` the last offset that held (char)c; at the NUL,
   * c == 0 finds the NUL itself.
   */
  function StrrchrFrom(a: seq<byte>, i: nat, b: byte, found: Option<nat>): (r: Option<nat>)
    requires 0 in a
    ensures r.Some? ==> r == found || (i <= r.value <= i + Strlen(a) && a[r.value - i] == b)
    ensures found.Some? ==> r.Some?
    ensures forall k :: 0 <= k <= Strlen(a) && a[k] == b ==> r.Some? && i + k <= r.value
  {
    if a[0] == 0 then
      if b == 0 then Some(i) else found
    else
      StrCons(a);
      var found' := if a[0] == b then Some(i) else found;
      var r := StrrchrFrom(a[1..], i + 1, b, found');
      assert forall k :: 1 <= k <= Strlen(a) ==> a[k] == a[1..][k - 1];
      r
  }

  /** strrchr: the offset of the last occurrence of (char)c, the NUL included, or NULL. */
  function Strrchr(a: seq<byte>, c: int): (r: Option<nat>)
    requires 0 in a
    ensures r.Some? ==> r.value <= Strlen(a) && a[r.value] == ToByte(c)
    ensures forall k :: (if r.Some? then r.value + 1 else 0) <= k <= Strlen(a) ==> a[k] != ToByte(c)
  {
    StrrchrFrom(a, 0, ToByte(c), None)
  }

  // ---------------------------------------------------------------------
  // strspn, strcspn, strpbrk
  // ---------------------------------------------------------------------

  /** strspn: the length of the longest prefix made of characters of the string acc. */
  function Strspn(a: seq<byte>, acc: seq<byte>): (r: nat)
    requires 0 in a && 0 in acc
    ensures r <= Strlen(a)
    ensures forall k :: 0 <= k < r ==> a[k] in Str(acc)
    ensures a[r] == 0 || a[r] !in Str(acc)
  {
    if a[0] == 0 then 0
    else
      StrchrFinds(acc, a[0]);
      if Strchr(acc, a[0]).Some? then
        StrCons(a);
        1 + Strspn(a[1..], acc)
      else 0
  }

  /** strcspn: the length of the longest prefix free of characters of the string rej. */
  function Strcspn(a: seq<byte>, rej: seq<byte>): (r: nat)
    requires 0 in a && 0 in rej
    ensures r <= Strlen(a)
    ensures forall k :: 0 <= k < r ==> a[k] !in Str(rej)
    ensures a[r] == 0 || a[r] in Str(rej)
  {
    if a[0] == 0 then 0
    else
      StrchrFinds(rej, a[0]);
      if Strchr(rej, a[0]).Some? then 0
      else
        StrCons(a);
        1 + Strcspn(a[1..], rej)
  }

  /** strpbrk: the offset of the first character that occurs in the string acc, or NULL. */
  function Strpbrk(a: seq<byte>, acc: seq<byte>): (r: Option<nat>)
    requires 0 in a && 0 in acc
    ensures r.Some? ==> r.value < Strlen(a)
  {
    if a[0] == 0 then None
    else
      StrCons(a);
      if Strchr(acc, a[0]).Some? then Some(0)
      else
        var r := Strpbrk(a[1..], acc);
        if r.Some? then Some(r.value + 1) else None
  }

  /** strpbrk finds a character of acc, and none of them comes before it; NULL means none at all. */
  lemma {:induction false} StrpbrkFinds(a: seq<byte>, acc: seq<byte>)
    requires 0 in a && 0 in acc
    ensures Strpbrk(a, acc).Some? ==> a[Strpbrk(a, acc).value] in Str(acc)
    ensures forall k :: 0 <= k < (if Strpbrk(a, acc).Some? then Strpbrk(a, acc).value else Strlen(a)) ==> a[k] !in Str(acc)
  {
    if a[0] != 0 {
      StrchrFinds(acc, a[0]);
      StrCons(a);
      if Strchr(acc, a[0]).None? {
        StrpbrkFinds(a[1..], acc);
      }
    }
  }

  /** strpbrk stops where strcspn does, and answers NULL exactly when that is the NUL. */
  lemma StrpbrkIsStrcspn(a: seq<byte>, acc: seq<byte>)
    requires 0 in a && 0 in acc
    ensures Strpbrk(a, acc) == if a[Strcspn(a, acc)] == 0 then None else Some(Strcspn(a, acc))
  {
    StrpbrkFinds(a, acc);
    var n := Strcspn(a, acc);
    var r := Strpbrk(a, acc);
    if r.Some? {
      assert r.value >= n;
    }
  }

  // ---------------------------------------------------------------------
  // strstr
  // ---------------------------------------------------------------------

  /** The needle string nd occurs at the start of h. */
  ghost predicate Occurs(h: seq<byte>, nd: seq<byte>)
    requires 0 in nd
  {
    Strlen(nd) <= |h| && h[..Strlen(nd)] == Str(nd)
  }

  /** A NUL among the first strlen(nd) bytes of h rules out an occurrence. */
  lemma NoRoom(h: seq<byte>, nd: seq<byte>, z: nat)
    requires 0 in nd && z < Strlen(nd) && z < |h| && h[z] == 0
    ensures !Occurs(h, nd)
  {
    if Strlen(nd) <= |h| {
      assert h[..Strlen(nd)][z] == 0 != Str(nd)[z];
    }
  }

  datatype Match = Found | HaystackEnd | Mismatch

  /**
   * strstr's inner do-while with j bytes already matched: the needle ends
   * (a match), the haystack ends (no match anywhere further on), or a
   * byte differs.
   */
  function MatchRest(h: seq<byte>, nd: seq<byte>, j: nat): (r: Match)
    requires 0 in h && 0 in nd
    requires 1 <= j <= Strlen(nd) && j <= Strlen(h) && h[..j] == nd[..j]
    ensures r == Found <==> Occurs(h, nd)
    ensures r == HaystackEnd ==> Strlen(h) < Strlen(nd)
    decreases Strlen(nd) - j
  {
    if nd[j] == 0 then
      Found
    else if h[j] == 0 then
      NoRoom(h, nd, j);
      HaystackEnd
    else if h[j] == nd[j] then
      assert h[..j + 1] == h[..j] + [h[j]];
      assert nd[..j + 1] == nd[..j] + [nd[j]];
      MatchRest(h, nd, j + 1)
    else
      assert Strlen(nd) <= |h| ==> h[..Strlen(nd)][j] != Str(nd)[j];
      Mismatch
  }

  /** An occurrence is made of non-NUL bytes, so it ends inside the haystack string. */
  lemma OccursWithin(h: seq<byte>, nd: seq<byte>)
    requires 0 in h && 0 in nd && Occurs(h, nd)
    ensures Strlen(nd) <= Strlen(h)
  {
    if Strlen(h) < Strlen(nd) {
      NoRoom(h, nd, Strlen(h));
    }
  }

  /** Once the haystack is shorter than the needle, no later position matches. */
  lemma HaystackTooShort(h: seq<byte>, nd: seq<byte>)
    requires 0 in h && 0 in nd && Strlen(h) < Strlen(nd)
    ensures forall q :: 0 <= q <= Strlen(h) ==> !Occurs(h[q..], nd)
  {
    forall q | 0 <= q <= Strlen(h)
      ensures !Occurs(h[q..], nd)
    {
      NoRoom(h[q..], nd, Strlen(h) - q);
    }
  }

  /** The suffixes of h[1..] are the suffixes of h after its first byte. */
  lemma SuffixShift(h: seq<byte>)
    requires |h| > 0
    ensures forall q :: 1 <= q <= |h| ==> h[1..][q - 1..] == h[q..]
  {
  }

  /** strstr's outer loop over the haystack h: the offset of the first occurrence, or NULL. */
  function StrstrFrom(h: seq<byte>, nd: seq<byte>): (r: Option<nat>)
    requires 0 in h && 0 in nd && nd[0] != 0
    ensures r.Some? ==> r.value + Strlen(nd) <= Strlen(h) && Occurs(h[r.value..], nd)
    ensures forall q :: 0 <= q < (if r.Some? then r.value else Strlen(h) + 1) ==> !Occurs(h[q..], nd)
    decreases |h|
  {
    if h[0] == 0 then
      NoRoom(h, nd, 0);
      None
    else
      StrCons(h);
      var m := if h[0] == nd[0] then MatchRest(h, nd, 1) else Mismatch;
      if m == Found then
        OccursWithin(h, nd);
        Some(0)
      else if m == HaystackEnd then
        HaystackTooShort(h, nd);
        None
      else
        var rest := StrstrFrom(h[1..], nd);
        NotHere(h, nd);
        StrstrShift(h, nd, rest);
        if rest.Some? then Some(rest.value + 1) else None
  }

  /** No match at the first byte: the answer for h[1..], one byte further on, is the answer for h. */
  lemma StrstrShift(h: seq<byte>, nd: seq<byte>, rest: Option<nat>)
    requires 0 in h && 0 in nd && h[0] != 0 && !Occurs(h, nd)
    requires 0 in h[1..] && Strlen(h) == 1 + Strlen(h[1..])
    requires rest.Some? ==> rest.value + Strlen(nd) <= Strlen(h[1..]) && Occurs(h[1..][rest.value..], nd)
    requires forall q :: 0 <= q < (if rest.Some? then rest.value else Strlen(h[1..]) + 1) ==> !Occurs(h[1..][q..], nd)
    ensures rest.Some? ==> rest.value + 1 + Strlen(nd) <= Strlen(h) && Occurs(h[rest.value + 1..], nd)
    ensures forall q :: 0 <= q < (if rest.Some? then rest.value + 1 else Strlen(h) + 1) ==> !Occurs(h[q..], nd)
  {
    SuffixShift(h);
  }

  /** Where the first bytes differ, or the inner loop finds a mismatch, the needle does not start. */
  lemma NotHere(h: seq<byte>, nd: seq<byte>)
    requires 0 in h && 0 in nd && nd[0] != 0 && h[0] != 0
    requires h[0] == nd[0] ==> MatchRest(h, nd, 1) == Mismatch
    ensures !Occurs(h, nd)
  {
    if h[0] != nd[0] && Strlen(nd) <= |h| {
      assert h[..Strlen(nd)][0] != Str(nd)[0];
    }
  }

  /**
   * strstr: the haystack itself for an empty needle, otherwise the offset
   * of the first occurrence of the needle inside the haystack string, or
   * NULL.
   */
  function Strstr(h: seq<byte>, nd: seq<byte>): (r: Option<nat>)
    requires 0 in h && 0 in nd
    ensures nd[0] == 0 ==> r == Some(0)
    ensures r.Some? ==> r.value + Strlen(nd) <= Strlen(h) && Occurs(h[r.value..], nd)
    ensures forall q :: 0 <= q < (if r.Some? then r.value else Strlen(h) + 1) ==> !Occurs(h[q..], nd)
  {
    if nd[0] == 0 then Some(0)
    else StrstrFrom(h, nd)
  }
  // ---------------------------------------------------------------------
  // The functions that write memory
  // ---------------------------------------------------------------------

  /** Memory m with the bytes b written from position at on. */
  function Write(m: seq<byte>, at: nat, b: seq<byte>): (r: seq<byte>)
    requires at + |b| <= |m|
    ensures |r| == |m|
  {
    m[..at] + b + m[at + |b|..]
  }

  /** A write puts b at at and leaves every other byte as it was. */
  lemma WriteBytes(m: seq<byte>, at: nat, b: seq<byte>)
    requires at + |b| <= |m|
    ensures Write(m, at, b)[at..at + |b|] == b
    ensures forall k :: 0 <= k < |m| && !(at <= k < at + |b|) ==> Write(m, at, b)[k] == m[k]
  {
  }

  /** The two areas of n1 and n2 bytes do not overlap. */
  predicate Disjoint(p1: nat, n1: nat, p2: nat, n2: nat)
  {
    p1 + n1 <= p2 || p2 + n2 <= p1
  }

  /**
   * memcpy: n bytes from src to dest, four at a time while both pointers
   * are 4-aligned and n >= 4, then byte by byte; the areas must not
   * overlap.
   */
  method Memcpy(mem: array<byte>, dest: nat, src: nat, n: nat) returns (r: nat)
    requires dest + n <= mem.Length && src + n <= mem.Length && Disjoint(dest, n, src, n)
    modifies mem
    ensures r == dest
    ensures mem[..] == Write(old(mem[..]), dest, old(mem[src..src + n]))
  {
    var d, s, left := dest, src, n;
    if left >= 4 && d % 4 == 0 && s % 4 == 0 {
      CopyWords(mem, dest, src, left / 4);
      d, s, left := dest + left / 4 * 4, src + left / 4 * 4, left % 4;
    }
    var i := 0;
    while i < left
      invariant 0 <= i <= left && d + left == dest + n && s + left == src + n
      invariant d - dest == s - src
      invariant forall k :: 0 <= k < mem.Length ==> mem[k] == if dest <= k < d + i then old(mem[k - dest + src]) else old(mem[k])
    {
      mem[d + i] := mem[s + i];
      i := i + 1;
    }
    WriteAt(old(mem[..]), mem[..], dest, old(mem[src..src + n]));
    r := dest;
  }

  /** memcpy's word loop: `*d32++ = *s32++` for each of the given number of 4-byte words. */
  method CopyWords(mem: array<byte>, dest: nat, src: nat, words: nat)
    requires dest + 4 * words <= mem.Length && src + 4 * words <= mem.Length
    requires Disjoint(dest, 4 * words, src, 4 * words)
    modifies mem
    ensures forall k :: 0 <= k < mem.Length ==> mem[k] == if dest <= k < dest + 4 * words then old(mem[k - dest + src]) else old(mem[k])
  {
    var d, s, i := dest, src, 0;
    while i < words
      invariant 0 <= i <= words && d == dest + 4 * i && s == src + 4 * i
      invariant forall k :: 0 <= k < mem.Length ==> mem[k] == if dest <= k < d then old(mem[k - dest + src]) else old(mem[k])
    {
      mem[d], mem[d + 1], mem[d + 2], mem[d + 3] := mem[s], mem[s + 1], mem[s + 2], mem[s + 3];
      d, s, i := d + 4, s + 4, i + 1;
    }
  }

  /** Memory that agrees with a write byte by byte is that write. */
  lemma WriteAt(m: seq<byte>, m': seq<byte>, at: nat, b: seq<byte>)
    requires at + |b| <= |m| && |m'| == |m|
    requires forall k :: 0 <= k < |m| ==> m'[k] == if at <= k < at + |b| then b[k - at] else m[k]
    ensures m' == Write(m, at, b)
  {
    var w := Write(m, at, b);
    forall k | 0 <= k < |m|
      ensures m'[k] == w[k]
    {
      if at <= k < at + |b| {
        assert w[at..at + |b|][k - at] == w[k];
      }
    }
  }
  /**
   * memmove: nothing when the pointers are equal or n is 0; backwards from
   * the end when dest lies inside the source area, forwards otherwise, so
   * that dest always ends up with the source's original bytes.
   */
  method Memmove(mem: array<byte>, dest: nat, src: nat, n: nat) returns (r: nat)
    requires dest + n <= mem.Length && src + n <= mem.Length
    modifies mem
    ensures r == dest
    ensures mem[..] == Write(old(mem[..]), dest, old(mem[src..src + n]))
  {
    r := dest;
    if dest == src || n == 0 {
      WriteSame(mem[..], dest, src, n);
      return;
    }
    if dest > src && dest < src + n {
      CopyBackward(mem, dest, src, n);
    } else {
      CopyForward(mem, dest, src, n);
    }
    WriteAt(old(mem[..]), mem[..], dest, old(mem[src..src + n]));
  }

  /** memmove's forward loop; correct whenever the destination does not start inside the source. */
  method CopyForward(mem: array<byte>, dest: nat, src: nat, n: nat)
    requires dest + n <= mem.Length && src + n <= mem.Length
    requires !(src < dest < src + n)
    modifies mem
    ensures forall k :: 0 <= k < mem.Length ==> mem[k] == if dest <= k < dest + n then old(mem[k - dest + src]) else old(mem[k])
  {
    var i := 0;
    while i < n
      invariant 0 <= i <= n
      invariant forall k :: 0 <= k < mem.Length ==> mem[k] == if dest <= k < dest + i then old(mem[k - dest + src]) else old(mem[k])
    {
      mem[dest + i] := mem[src + i];
      i := i + 1;
    }
  }

  /** memmove's backward loop, from the last byte down, for a destination that starts inside the source. */
  method CopyBackward(mem: array<byte>, dest: nat, src: nat, n: nat)
    requires dest + n <= mem.Length && src + n <= mem.Length
    requires src < dest
    modifies mem
    ensures forall k :: 0 <= k < mem.Length ==> mem[k] == if dest <= k < dest + n then old(mem[k - dest + src]) else old(mem[k])
  {
    var i := n;
    while i > 0
      invariant 0 <= i <= n
      invariant forall k :: 0 <= k < mem.Length ==> mem[k] == if dest + i <= k < dest + n then old(mem[k - dest + src]) else old(mem[k])
    {
      mem[dest + i - 1] := mem[src + i - 1];
      i := i - 1;
    }
  }

  lemma WriteSame(m: seq<byte>, dest: nat, src: nat, n: nat)
    requires dest + n <= |m| && src + n <= |m| && (dest == src || n == 0)
    ensures m == Write(m, dest, m[src..src + n])
  {
    WriteAt(m, m, dest, m[src..src + n]);
  }

  /** `byte | byte << 8 | byte << 16 | byte << 24`; the shifted copies share no bit, so the or is a sum. */
  function Pattern(b: byte): nat
  {
    b + b * 0x100 + b * 0x1_0000 + b * 0x100_0000
  }

  /** Byte k of a 32-bit word stored little-endian. */
  function LeByte(w: nat, k: nat): byte
    requires k < 4
  {
    if k == 0 then w % 0x100 else LeByte(w / 0x100, k - 1)
  }

  /** The low byte and the rest of b + 0x100 * x. */
  lemma LowByte(b: byte, x: nat)
    ensures (b + 0x100 * x) % 0x100 == b && (b + 0x100 * x) / 0x100 == x
  {
  }

  /** Every byte of the repeated-byte word is that byte. */
  lemma PatternBytes(b: byte)
    ensures forall k :: 0 <= k < 4 ==> LeByte(Pattern(b), k) == b
  {
    var w2 := b + 0x100 * b;
    var w1 := b + 0x100 * w2;
    var w := b + 0x100 * w1;
    assert Pattern(b) == w;
    LowByte(b, w1);
    LowByte(b, w2);
    LowByte(b, b);
    assert LeByte(w, 0) == b;
    assert LeByte(w, 1) == LeByte(w1, 0) == b;
    assert LeByte(w, 2) == LeByte(w1, 1) == LeByte(w2, 0) == b;
    assert LeByte(w, 3) == LeByte(w1, 2) == LeByte(w2, 1) == LeByte(b, 0) == b;
  }

  /** n copies of b. */
  function Fill(b: byte, n: nat): (r: seq<byte>)
    ensures |r| == n && forall k :: 0 <= k < n ==> r[k] == b
  {
    seq(n, _ => b)
  }

  /**
   * memset: n bytes of (unsigned char)c from s on, a word of four copies at
   * a time while s is 4-aligned and n >= 4, then byte by byte.
   */
  method Memset(mem: array<byte>, s: nat, c: int, n: nat) returns (r: nat)
    requires s + n <= mem.Length
    modifies mem
    ensures r == s
    ensures mem[..] == Write(old(mem[..]), s, Fill(ToByte(c), n))
  {
    var p, left := s, n;
    var b := ToByte(c);
    if left >= 4 && p % 4 == 0 {
      var word := Pattern(b);
      PatternBytes(b);
      var words := left / 4;
      var i := 0;
      while i < words
        invariant 0 <= i <= words && words * 4 <= n
        invariant p == s + 4 * i
        invariant forall k :: 0 <= k < mem.Length ==> mem[k] == if s <= k < p then b else old(mem[k])
      {
        mem[p], mem[p + 1], mem[p + 2], mem[p + 3] := LeByte(word, 0), LeByte(word, 1), LeByte(word, 2), LeByte(word, 3);
        p, i := p + 4, i + 1;
      }
      left := left % 4;
    }
    var i := 0;
    while i < left
      invariant 0 <= i <= left && p + left == s + n
      invariant forall k :: 0 <= k < mem.Length ==> mem[k] == if s <= k < p + i then b else old(mem[k])
    {
      mem[p + i] := b;
      i := i + 1;
    }
    WriteAt(old(mem[..]), mem[..], s, Fill(b, n));
    r := s;
  }

  /** The string with its NUL: the bytes strcpy copies. */
  function CStr(a: seq<byte>): (r: seq<byte>)
    requires 0 in a
    ensures |r| == Strlen(a) + 1
  {
    a[..Strlen(a) + 1]
  }

  /** The copied bytes are the string and its terminator. */
  lemma CStrIsStr(a: seq<byte>)
    requires 0 in a
    ensures CStr(a) == Str(a) + [0]
  {
    assert CStr(a)[..Strlen(a)] == Str(a);
  }

  /**
   * The byte loop `while ((*d++ = *src++));` that strcpy and strcat share:
   * copies the string at src, its NUL included, to dest.
   */
  method CopyString(mem: array<byte>, dest: nat, src: nat, ghost m0: seq<byte>)
    requires m0 == mem[..] && src <= |m0| && 0 in m0[src..]
    requires dest + Strlen(m0[src..]) + 1 <= |m0|
    requires Disjoint(dest, Strlen(m0[src..]) + 1, src, Strlen(m0[src..]) + 1)
    modifies mem
    ensures mem[..] == Write(m0, dest, CStr(m0[src..]))
  {
    ghost var len, bytes := Strlen(m0[src..]), CStr(m0[src..]);
    var i := 0;
    while true
      invariant i <= len
      invariant mem[..] == Write(m0, dest, bytes[..i])
      decreases len - i
    {
      CStrAt(m0[src..], i);
      var c := CopyByte(mem, dest, src, i, m0, bytes);
      if c == 0 {
        CStrEnd(m0[src..], i);
        break;
      }
      i := i + 1;
    }
  }

  /** Byte i of the copied bytes, NUL only at the end. */
  lemma CStrAt(a: seq<byte>, i: nat)
    requires 0 in a && i <= Strlen(a)
    ensures CStr(a)[i] == a[i] && (a[i] == 0 <==> i == Strlen(a))
  {
  }

  /** The first NUL of the copied bytes is the last of them. */
  lemma CStrEnd(a: seq<byte>, i: nat)
    requires 0 in a && i <= Strlen(a) && CStr(a)[i] == 0
    ensures CStr(a)[..i + 1] == CStr(a)
  {
  }

  /** `*d++ = *s++` at step i of a forward copy of out from src to dest. */
  method CopyByte(mem: array<byte>, dest: nat, src: nat, i: nat, ghost m0: seq<byte>, ghost out: seq<byte>)
    returns (c: byte)
    requires |m0| == mem.Length && dest + |out| <= |m0| && i < |out|
    requires src + i < |m0| && m0[src + i] == out[i] && Disjoint(dest, |out|, src, i + 1)
    requires mem[..] == Write(m0, dest, out[..i])
    modifies mem
    ensures c == out[i] && mem[..] == Write(m0, dest, out[..i + 1])
  {
    CopyStep(m0, dest, src, out, i);
    c := mem[src + i];
    mem[dest + i] := c;
  }

  /** `*d++ = '\0'` at step i of a write of out to dest whose byte i is NUL. */
  method PadByte(mem: array<byte>, dest: nat, i: nat, ghost m0: seq<byte>, ghost out: seq<byte>)
    requires |m0| == mem.Length && dest + |out| <= |m0| && i < |out| && out[i] == 0
    requires mem[..] == Write(m0, dest, out[..i])
    modifies mem
    ensures mem[..] == Write(m0, dest, out[..i + 1])
  {
    assert out[..i] + [out[i]] == out[..i + 1];
    WriteStep(m0, dest, out[..i], 0);
    mem[dest + i] := 0;
  }

  /** The NUL-padding loop: bytes from..|out| of out, all NUL, written at dest + from on. */
  method PadZeros(mem: array<byte>, dest: nat, from: nat, to: nat, ghost m0: seq<byte>, ghost out: seq<byte>)
    requires |m0| == mem.Length && dest + |out| <= |m0| && from <= to == |out|
    requires forall k :: from <= k < |out| ==> out[k] == 0
    requires mem[..] == Write(m0, dest, out[..from])
    modifies mem
    ensures mem[..] == Write(m0, dest, out)
  {
    var i := from;
    while i < to
      invariant from <= i <= |out|
      invariant mem[..] == Write(m0, dest, out[..i])
    {
      PadByte(mem, dest, i, m0, out);
      i := i + 1;
    }
    assert out[..i] == out;
  }

  /**
   * One step of a forward byte copy of out to dest: the source byte about
   * to be read is not yet overwritten, and writing it extends the copy.
   */
  lemma CopyStep(m0: seq<byte>, dest: nat, src: nat, out: seq<byte>, i: nat)
    requires dest + |out| <= |m0| && i < |out| && src + i < |m0| && m0[src + i] == out[i]
    requires Disjoint(dest, |out|, src, i + 1)
    ensures Write(m0, dest, out[..i])[src + i] == out[i]
    ensures Write(m0, dest, out[..i])[dest + i := out[i]] == Write(m0, dest, out[..i + 1])
  {
    assert out[..i] + [out[i]] == out[..i + 1];
    WriteStep(m0, dest, out[..i], out[i]);
  }

  /** Writing one more byte just past a write extends it. */
  lemma WriteStep(m: seq<byte>, at: nat, b: seq<byte>, x: byte)
    requires at + |b| < |m|
    ensures Write(m, at, b)[at + |b| := x] == Write(m, at, b + [x])
  {
    var w := Write(m, at, b)[at + |b| := x];
    WriteAt(m, w, at, b + [x]);
  }

  /** strcpy: the string at src, its NUL included, to dest; the areas must not overlap. */
  method Strcpy(mem: array<byte>, dest: nat, src: nat) returns (r: nat)
    requires src <= mem.Length && 0 in mem[src..]
    requires dest + Strlen(mem[src..]) + 1 <= mem.Length
    requires Disjoint(dest, Strlen(mem[src..]) + 1, src, Strlen(mem[src..]) + 1)
    modifies mem
    ensures r == dest
    ensures mem[..] == Write(old(mem[..]), dest, old(CStr(mem[src..])))
  {
    CopyString(mem, dest, src, mem[..]);
    r := dest;
  }

  /** Memory read from the start of a write begins with the bytes written. */
  lemma WriteTail(m: seq<byte>, at: nat, b: seq<byte>)
    requires at + |b| <= |m|
    ensures Write(m, at, b)[at..][..|b|] == b
  {
    assert Write(m, at, b)[at..] == b + m[at + |b|..];
  }

  /** A run of non-NUL bytes followed by a NUL is a string of exactly those bytes. */
  lemma Terminated(s: seq<byte>)
    requires 0 !in s
    ensures 0 in s + [0] && Strlen(s + [0]) == |s| && Str(s + [0]) == s
  {
    StrlenUnique(s + [0], |s|);
    assert (s + [0])[..|s|] == s;
  }

  /** A string holds no NUL. */
  lemma StrNoNul(a: seq<byte>)
    requires 0 in a
    ensures 0 !in Str(a)
  {
    assert forall k :: 0 <= k < |Str(a)| ==> Str(a)[k] == a[k];
  }

  /** After the bytes of s and a NUL are written at dest, dest holds the string s. */
  lemma WriteStr(m: seq<byte>, dest: nat, s: seq<byte>)
    requires 0 !in s && dest + |s| + 1 <= |m|
    ensures 0 in Write(m, dest, s + [0])[dest..]
    ensures Str(Write(m, dest, s + [0])[dest..]) == s
  {
    var c := s + [0];
    var tail := Write(m, dest, c)[dest..];
    WriteTail(m, dest, c);
    Terminated(s);
    assert c[..|s| + 1] == c;
    StrFrame(c, tail);
  }

  /** After strcpy's bytes are written at dest, dest holds the source string. */
  lemma WriteCStr(m: seq<byte>, dest: nat, a: seq<byte>)
    requires 0 in a && dest + Strlen(a) + 1 <= |m|
    ensures 0 in Write(m, dest, CStr(a))[dest..]
    ensures Str(Write(m, dest, CStr(a))[dest..]) == Str(a)
  {
    StrNoNul(a);
    CStrIsStr(a);
    WriteStr(m, dest, Str(a));
  }

  /** The bytes strncpy reads at src: n, or fewer and the NUL after them. */
  function Span(a: seq<byte>, n: nat): nat
    requires Readable(a, n)
  {
    if |Prefix(a, n)| < n then |Prefix(a, n)| + 1 else n
  }

  /** What strncpy writes: the string's first n characters, then NULs up to n bytes. */
  function Padded(a: seq<byte>, n: nat): (r: seq<byte>)
    requires Readable(a, n)
    ensures |r| == n
  {
    Prefix(a, n) + Fill(0, n - |Prefix(a, n)|)
  }

  /** Byte i of the padded copy: the source byte inside the prefix, NUL after it. */
  lemma PaddedAt(a: seq<byte>, n: nat, i: nat)
    requires Readable(a, n) && i < n
    ensures i < |Prefix(a, n)| ==> i < |a| && Padded(a, n)[i] == a[i] != 0
    ensures i >= |Prefix(a, n)| ==> Padded(a, n)[i] == 0
    ensures i == |Prefix(a, n)| ==> i < |a| && a[i] == 0
  {
  }

  /** A copy that stops at n characters or at a NUL has copied the whole prefix. */
  lemma PrefixStop(m0: seq<byte>, src: nat, n: nat, i: nat)
    requires src <= |m0| && Readable(m0[src..], n) && i <= |Prefix(m0[src..], n)|
    requires i < n ==> src + i < |m0| && m0[src + i] == 0
    ensures i == |Prefix(m0[src..], n)|
  {
    if i < n {
      assert m0[src..][i] == 0;
    }
  }

  /** Past the copied prefix the padded copy holds only NULs. */
  lemma PaddedZeros(a: seq<byte>, n: nat)
    requires Readable(a, n)
    ensures forall k :: |Prefix(a, n)| <= k < n ==> Padded(a, n)[k] == 0
  {
  }

  /** strncpy leaves no terminator exactly when the source has at least n characters. */
  lemma PaddedTerminated(a: seq<byte>, n: nat)
    requires Readable(a, n)
    ensures 0 in Padded(a, n) <==> |Prefix(a, n)| < n
  {
    var r := Padded(a, n);
    if |Prefix(a, n)| < n {
      assert r[|Prefix(a, n)|] == 0;
    } else {
      assert r == Prefix(a, n);
    }
  }

  /**
   * strncpy: exactly n bytes to dest, the characters of src up to its NUL
   * or n of them, then NULs; the areas must not overlap.
   */
  method Strncpy(mem: array<byte>, dest: nat, src: nat, n: nat) returns (r: nat)
    requires src <= mem.Length && Readable(mem[src..], n)
    requires dest + n <= mem.Length && Disjoint(dest, n, src, Span(mem[src..], n))
    modifies mem
    ensures r == dest
    ensures mem[..] == Write(old(mem[..]), dest, old(Padded(mem[src..], n)))
  {
    ghost var m0, out := mem[..], Padded(mem[src..], n);
    PaddedPrefix(m0[src..], n);
    var i := CopyChars(mem, dest, src, n, m0, out);
    PaddedZeros(m0[src..], n);
    PadZeros(mem, dest, i, n, m0, out);
    r := dest;
  }

  /**
   * The copy loop of strncpy and strncat,
   * `for (i = 0; i < n && src[i] != '\0'; i++) d[i] = src[i];`: copies the
   * first n characters of src or all of them, as the first bytes of out.
   */
  method CopyChars(mem: array<byte>, dest: nat, src: nat, n: nat, ghost m0: seq<byte>, ghost out: seq<byte>)
    returns (i: nat)
    requires m0 == mem[..] && src <= |m0| && Readable(m0[src..], n)
    requires |Prefix(m0[src..], n)| <= |out| && out[..|Prefix(m0[src..], n)|] == Prefix(m0[src..], n)
    requires dest + |out| <= |m0| && Disjoint(dest, |out|, src, Span(m0[src..], n))
    modifies mem
    ensures i == |Prefix(m0[src..], n)| && mem[..] == Write(m0, dest, out[..i])
  {
    i := 0;
    while i < n
      invariant i <= |Prefix(m0[src..], n)|
      invariant mem[..] == Write(m0, dest, out[..i])
    {
      CharsStep(m0, dest, src, n, out, i);
      assert mem[src + i] == m0[src + i];
      if mem[src + i] == 0 {
        PrefixStop(m0, src, n, i);
        return;
      }
      var _ := CopyByte(mem, dest, src, i, m0, out);
      i := i + 1;
    }
    PrefixStop(m0, src, n, i);
  }

  /** At step i < n of the copy loop the source byte is in memory and not yet overwritten, and a non-NUL one is byte i of out. */
  lemma CharsStep(m0: seq<byte>, dest: nat, src: nat, n: nat, out: seq<byte>, i: nat)
    requires src <= |m0| && Readable(m0[src..], n) && i < n && i <= |Prefix(m0[src..], n)|
    requires |Prefix(m0[src..], n)| <= |out| && out[..|Prefix(m0[src..], n)|] == Prefix(m0[src..], n)
    requires dest + |out| <= |m0| && Disjoint(dest, |out|, src, Span(m0[src..], n))
    ensures src + i < |m0| && Write(m0, dest, out[..i])[src + i] == m0[src + i]
    ensures m0[src + i] != 0 ==> i < |Prefix(m0[src..], n)| && out[i] == m0[src + i]
    ensures m0[src + i] != 0 ==> Disjoint(dest, |out|, src, i + 1)
  {
    var a := m0[src..];
    var pre := Prefix(a, n);
    assert a[i] == m0[src + i];
    if a[i] != 0 {
      assert i != |pre|;
      assert out[i] == out[..|pre|][i] == pre[i] == a[i];
    }
  }

  /** The padded copy starts with the prefix it pads. */
  lemma PaddedPrefix(a: seq<byte>, n: nat)
    requires Readable(a, n)
    ensures Padded(a, n)[..|Prefix(a, n)|] == Prefix(a, n)
  {
  }

  /** Where `while (*d) d++;` stops: strlen's answer, reached from below. */
  lemma StrlenStop(m: seq<byte>, p: nat, i: nat)
    requires p <= |m| && 0 in m[p..] && i <= Strlen(m[p..])
    ensures p + i < |m| && (m[p + i] == 0 <==> i == Strlen(m[p..]))
  {
    assert m[p..][i] == m[p + i];
  }

  /** strcat's and strncat's first loop: the end of the string at p. */
  method FindEnd(mem: array<byte>, p: nat, ghost m0: seq<byte>) returns (q: nat)
    requires m0 == mem[..] && p <= |m0| && 0 in m0[p..]
    ensures q == p + Strlen(m0[p..])
  {
    q := p;
    StrlenStop(m0, p, 0);
    while mem[q] != 0
      invariant p <= q && q - p <= Strlen(m0[p..])
      invariant q < |m0| && (m0[q] == 0 <==> q - p == Strlen(m0[p..]))
      decreases Strlen(m0[p..]) - (q - p)
    {
      q := q + 1;
      StrlenStop(m0, p, q - p);
    }
  }

  /**
   * Writing a NUL-free s and a NUL just past the string at dest appends s
   * to that string.
   */
  lemma Append(m: seq<byte>, dest: nat, s: seq<byte>)
    requires dest <= |m| && 0 in m[dest..] && 0 !in s
    requires dest + Strlen(m[dest..]) + |s| + 1 <= |m|
    ensures 0 in Write(m, dest + Strlen(m[dest..]), s + [0])[dest..]
    ensures Str(Write(m, dest + Strlen(m[dest..]), s + [0])[dest..]) == Str(m[dest..]) + s
  {
    var ld, head := Strlen(m[dest..]), Str(m[dest..]);
    assert |head| == ld && head == m[dest..dest + ld];
    WriteAfter(m, dest, head, s + [0]);
    StrNoNul(m[dest..]);
    var t := head + s;
    assert head + (s + [0]) == t + [0];
    var w := Write(m, dest + ld, s + [0]);
    assert w == Write(m, dest, t + [0]);
    WriteStr(m, dest, t);
    assert 0 in w[dest..] && Str(w[dest..]) == t;
  }

  /** Writing b just past bytes that already hold pre is writing pre + b. */
  lemma WriteAfter(m: seq<byte>, at: nat, pre: seq<byte>, b: seq<byte>)
    requires at + |pre| + |b| <= |m| && m[at..at + |pre|] == pre
    ensures Write(m, at + |pre|, b) == Write(m, at, pre + b)
  {
    assert m[..at + |pre|] == m[..at] + pre;
  }

  /** Memory after strcat: the string at src, its NUL included, written over the NUL of the string at dest. */
  function CatResult(m: seq<byte>, dest: nat, src: nat): (r: seq<byte>)
    requires dest <= |m| && 0 in m[dest..] && src <= |m| && 0 in m[src..]
    requires dest + Strlen(m[dest..]) + Strlen(m[src..]) + 1 <= |m|
  {
    Write(m, dest + Strlen(m[dest..]), CStr(m[src..]))
  }

  /** CatResult spelled out with the end of dest named. */
  lemma CatResultIs(m: seq<byte>, dest: nat, src: nat, d: nat)
    requires dest <= |m| && 0 in m[dest..] && src <= |m| && 0 in m[src..]
    requires dest + Strlen(m[dest..]) + Strlen(m[src..]) + 1 <= |m|
    requires d == dest + Strlen(m[dest..])
    ensures CatResult(m, dest, src) == Write(m, d, CStr(m[src..]))
  {
  }

  /** What strcat leaves at dest: the old string followed by the string at src. */
  lemma StrcatString(m: seq<byte>, dest: nat, src: nat)
    requires dest <= |m| && 0 in m[dest..] && src <= |m| && 0 in m[src..]
    requires dest + Strlen(m[dest..]) + Strlen(m[src..]) + 1 <= |m|
    ensures 0 in CatResult(m, dest, src)[dest..]
    ensures Str(CatResult(m, dest, src)[dest..]) == Str(m[dest..]) + Str(m[src..])
  {
    var a := m[src..];
    StrNoNul(a);
    CStrIsStr(a);
    Append(m, dest, Str(a));
  }

  /** strcat: the string at src, its NUL included, copied to the end of the string at dest. */
  method Strcat(mem: array<byte>, dest: nat, src: nat) returns (r: nat)
    requires dest <= mem.Length && 0 in mem[dest..] && src <= mem.Length && 0 in mem[src..]
    requires dest + Strlen(mem[dest..]) + Strlen(mem[src..]) + 1 <= mem.Length
    requires Disjoint(dest + Strlen(mem[dest..]), Strlen(mem[src..]) + 1, src, Strlen(mem[src..]) + 1)
    modifies mem
    ensures r == dest
    ensures mem[..] == CatResult(old(mem[..]), dest, src)
  {
    ghost var m0 := mem[..];
    var d := FindEnd(mem, dest, m0);
    CopyString(mem, d, src, m0);
    CatResultIs(m0, dest, src, d);
    r := dest;
  }

  /** Memory after strncat: at most n characters of src and a NUL, written over the NUL of the string at dest. */
  function NCatResult(m: seq<byte>, dest: nat, src: nat, n: nat): (r: seq<byte>)
    requires dest <= |m| && 0 in m[dest..] && src <= |m| && Readable(m[src..], n)
    requires dest + Strlen(m[dest..]) + |Prefix(m[src..], n)| + 1 <= |m|
  {
    Write(m, dest + Strlen(m[dest..]), Prefix(m[src..], n) + [0])
  }

  /** NCatResult spelled out with the end of dest and the bytes written named. */
  lemma NCatResultIs(m: seq<byte>, dest: nat, src: nat, n: nat, d: nat, out: seq<byte>)
    requires dest <= |m| && 0 in m[dest..] && src <= |m| && Readable(m[src..], n)
    requires dest + Strlen(m[dest..]) + |Prefix(m[src..], n)| + 1 <= |m|
    requires d == dest + Strlen(m[dest..]) && out == Prefix(m[src..], n) + [0]
    ensures NCatResult(m, dest, src, n) == Write(m, d, out)
  {
  }

  /** What strncat leaves at dest: the old string followed by at most n characters of src. */
  lemma StrncatString(m: seq<byte>, dest: nat, src: nat, n: nat)
    requires dest <= |m| && 0 in m[dest..] && src <= |m| && Readable(m[src..], n)
    requires dest + Strlen(m[dest..]) + |Prefix(m[src..], n)| + 1 <= |m|
    ensures 0 in NCatResult(m, dest, src, n)[dest..]
    ensures Str(NCatResult(m, dest, src, n)[dest..]) == Str(m[dest..]) + Prefix(m[src..], n)
  {
    var pre := Prefix(m[src..], n);
    assert 0 !in pre;
    Append(m, dest, pre);
    assert NCatResult(m, dest, src, n) == Write(m, dest + Strlen(m[dest..]), pre + [0]);
  }

  /**
   * strncat: the first n characters of src, or all of it when shorter, and
   * a NUL, copied to the end of the string at dest.
   */
  method Strncat(mem: array<byte>, dest: nat, src: nat, n: nat) returns (r: nat)
    requires dest <= mem.Length && 0 in mem[dest..] && src <= mem.Length && Readable(mem[src..], n)
    requires dest + Strlen(mem[dest..]) + |Prefix(mem[src..], n)| + 1 <= mem.Length
    requires Disjoint(dest + Strlen(mem[dest..]), |Prefix(mem[src..], n)| + 1, src, Span(mem[src..], n))
    modifies mem
    ensures r == dest
    ensures mem[..] == NCatResult(old(mem[..]), dest, src, n)
  {
    ghost var m0 := mem[..];
    ghost var pre := Prefix(m0[src..], n);
    ghost var out := pre + [0];
    var d := FindEnd(mem, dest, m0);
    assert out[..|pre|] == pre;
    var i := CopyChars(mem, d, src, n, m0, out);
    PadByte(mem, d, i, m0, out);
    assert out[..i + 1] == out;
    NCatResultIs(m0, dest, src, n, d, out);
    r := dest;
  }

  // ---------------------------------------------------------------------
  // strupr, strlwr
  // ---------------------------------------------------------------------

  predicate IsLower(c: byte) { 'a' as int <= c <= 'z' as int }
  predicate IsUpper(c: byte) { 'A' as int <= c <= 'Z' as int }

  /**
   * The case change of one character: a lower-case ASCII letter to upper
   * case (strupr, upper) or an upper-case one to lower case (strlwr).
   */
  function CaseChar(c: byte, upper: bool): byte
  {
    if upper && IsLower(c) then c - 'a' as int + 'A' as int
    else if !upper && IsUpper(c) then c - 'A' as int + 'a' as int
    else c
  }

  /** The case change of every character of x. */
  function Convert(x: seq<byte>, upper: bool): (r: seq<byte>)
    ensures |r| == |x|
  {
    if x == [] then [] else [CaseChar(x[0], upper)] + Convert(x[1..], upper)
  }

  /** Character k of the converted bytes is character k of x, converted. */
  lemma {:induction false} ConvertAt(x: seq<byte>, upper: bool, k: nat)
    requires k < |x|
    ensures Convert(x, upper)[k] == CaseChar(x[k], upper)
  {
    if k > 0 {
      ConvertAt(x[1..], upper, k - 1);
    }
  }

  /**
   * What the conversion does, stated without it: strupr leaves no
   * lower-case letter and strlwr no upper-case one, every other character
   * is kept, and each changed character is the same letter in the other
   * case (the two cases are 32 apart in ASCII).
   */
  lemma ConvertMeaning(x: seq<byte>, upper: bool)
    ensures forall k :: 0 <= k < |x| ==> !(if upper then IsLower(Convert(x, upper)[k]) else IsUpper(Convert(x, upper)[k]))
    ensures forall k :: 0 <= k < |x| && !(if upper then IsLower(x[k]) else IsUpper(x[k])) ==> Convert(x, upper)[k] == x[k]
    ensures forall k :: 0 <= k < |x| && (if upper then IsLower(x[k]) else IsUpper(x[k])) ==>
      Convert(x, upper)[k] == (if upper then x[k] - 32 else x[k] + 32)
  {
    forall k | 0 <= k < |x|
      ensures Convert(x, upper)[k] == CaseChar(x[k], upper)
    {
      ConvertAt(x, upper, k);
    }
  }

  /** Converting twice to the same case is converting once. */
  lemma ConvertIdempotent(x: seq<byte>, upper: bool)
    ensures Convert(Convert(x, upper), upper) == Convert(x, upper)
  {
    var y := Convert(x, upper);
    forall k | 0 <= k < |x|
      ensures Convert(y, upper)[k] == y[k]
    {
      ConvertAt(x, upper, k);
      ConvertAt(y, upper, k);
    }
  }

  /** strlwr after strupr, or strupr after strlwr, is the second conversion alone. */
  lemma ConvertLast(x: seq<byte>, upper: bool)
    ensures Convert(Convert(x, !upper), upper) == Convert(x, upper)
  {
    var y := Convert(x, !upper);
    forall k | 0 <= k < |x|
      ensures Convert(y, upper)[k] == Convert(x, upper)[k]
    {
      ConvertAt(x, !upper, k);
      ConvertAt(y, upper, k);
      ConvertAt(x, upper, k);
    }
  }

  /** Only letters change case, so the NUL stays where it was. */
  lemma ConvertNul(x: seq<byte>, upper: bool)
    ensures 0 in Convert(x, upper) <==> 0 in x
  {
    var y := Convert(x, upper);
    forall k | 0 <= k < |x|
      ensures y[k] == 0 <==> x[k] == 0
    {
      ConvertAt(x, upper, k);
    }
    if 0 in y {
      var k :| 0 <= k < |y| && y[k] == 0;
      assert x[k] == 0;
    }
    if 0 in x {
      var k :| 0 <= k < |x| && x[k] == 0;
      assert y[k] == 0;
    }
  }

  /** Memory after strupr or strlwr: the characters of the string at s converted in place. */
  function CaseResult(m: seq<byte>, s: nat, upper: bool): (r: seq<byte>)
    requires s <= |m| && 0 in m[s..]
  {
    Write(m, s, Convert(Str(m[s..]), upper))
  }

  /** After strupr or strlwr the string at s is the old string converted, of the same length. */
  lemma CaseString(m: seq<byte>, s: nat, upper: bool)
    requires s <= |m| && 0 in m[s..]
    ensures 0 in CaseResult(m, s, upper)[s..]
    ensures Str(CaseResult(m, s, upper)[s..]) == Convert(Str(m[s..]), upper)
  {
    var x := Str(m[s..]);
    var t := Convert(x, upper);
    StrNoNul(m[s..]);
    ConvertNul(x, upper);
    assert m[s + |x|] == m[s..][|x|] == 0;
    assert CaseResult(m, s, upper) == Write(m, s, t + [0]);
    WriteStr(m, s, t);
  }

  /** Byte i of a write of b[..i] at at is the old byte there. */
  lemma WriteNext(m: seq<byte>, at: nat, b: seq<byte>, i: nat)
    requires at + |b| <= |m| && i <= |b| && at + i < |m|
    ensures Write(m, at, b[..i])[at + i] == m[at + i]
  {
  }

  /** One character of the loop of strupr or strlwr: `if (letter) *p = other case;` at p = s + i. */
  method CaseByte(mem: array<byte>, s: nat, i: nat, upper: bool, ghost m0: seq<byte>, ghost out: seq<byte>)
    requires |m0| == mem.Length && s + |out| <= |m0| && i < |out| && out[i] == CaseChar(m0[s + i], upper)
    requires mem[..] == Write(m0, s, out[..i])
    modifies mem
    ensures mem[..] == Write(m0, s, out[..i + 1])
  {
    WriteNext(m0, s, out, i);
    assert out[..i] + [out[i]] == out[..i + 1];
    WriteStep(m0, s, out[..i], out[i]);
    var c := mem[s + i];
    if upper && IsLower(c) {
      mem[s + i] := c - 'a' as int + 'A' as int;
    } else if !upper && IsUpper(c) {
      mem[s + i] := c - 'A' as int + 'a' as int;
    } else {
      assert mem[..] == mem[..][s + i := out[i]];
    }
  }

  /** The loop `while (*p) { ...; p++; }` of strupr (upper) and strlwr (!upper). */
  method ConvertInPlace(mem: array<byte>, s: nat, upper: bool, ghost m0: seq<byte>)
    requires m0 == mem[..] && s <= |m0| && 0 in m0[s..]
    modifies mem
    ensures mem[..] == CaseResult(m0, s, upper)
  {
    ghost var out := Convert(Str(m0[s..]), upper);
    CaseBytes(m0, s, upper);
    ConvertLoop(mem, s, upper, m0, out);
  }

  /** The converted string, byte by byte against memory. */
  lemma CaseBytes(m: seq<byte>, s: nat, upper: bool)
    requires s <= |m| && 0 in m[s..]
    ensures s + Strlen(m[s..]) < |m| && |Convert(Str(m[s..]), upper)| == Strlen(m[s..])
    ensures forall k :: 0 <= k < Strlen(m[s..]) ==> Convert(Str(m[s..]), upper)[k] == CaseChar(m[s + k], upper)
  {
    var x := Str(m[s..]);
    forall k | 0 <= k < |x|
      ensures Convert(x, upper)[k] == CaseChar(m[s + k], upper)
    {
      ConvertAt(x, upper, k);
      StrAt(m, s, k);
    }
  }

  /** The loop itself, writing out, the string at s converted. */
  method ConvertLoop(mem: array<byte>, s: nat, upper: bool, ghost m0: seq<byte>, ghost out: seq<byte>)
    requires m0 == mem[..] && s <= |m0| && 0 in m0[s..] && |out| == Strlen(m0[s..])
    requires forall k :: 0 <= k < |out| ==> out[k] == CaseChar(m0[s + k], upper)
    modifies mem
    ensures mem[..] == Write(m0, s, out)
  {
    var i := 0;
    while true
      invariant i <= |out|
      invariant mem[..] == Write(m0, s, out[..i])
      decreases |out| - i
    {
      var c := ReadAhead(mem, s, i, m0, out);
      if c == 0 {
        assert out[..i] == out;
        return;
      }
      CaseByte(mem, s, i, upper, m0, out);
      i := i + 1;
    }
  }

  /**
   * `*p` at p = s + i, in a loop that has written the first i of the
   * |out| == Strlen bytes at s: still the old byte, NUL exactly at the end.
   */
  method ReadAhead(mem: array<byte>, s: nat, i: nat, ghost m0: seq<byte>, ghost out: seq<byte>) returns (c: byte)
    requires |m0| == mem.Length && s <= |m0| && 0 in m0[s..] && |out| == Strlen(m0[s..]) && i <= |out|
    requires mem[..] == Write(m0, s, out[..i])
    ensures c == m0[s + i] && (c == 0 <==> i == |out|)
  {
    StrlenStop(m0, s, i);
    WriteNext(m0, s, out, i);
    c := mem[s + i];
  }

  /** Character i of the string at s is the byte at s + i. */
  lemma StrAt(m: seq<byte>, s: nat, i: nat)
    requires s <= |m| && 0 in m[s..] && i < Strlen(m[s..])
    ensures s + i < |m| && Str(m[s..])[i] == m[s + i]
  {
  }

  /** strupr: every lower-case letter of the string at s changed to upper case, in place. */
  method Strupr(mem: array<byte>, s: nat) returns (r: nat)
    requires s <= mem.Length && 0 in mem[s..]
    modifies mem
    ensures r == s
    ensures mem[..] == CaseResult(old(mem[..]), s, true)
  {
    ConvertInPlace(mem, s, true, mem[..]);
    r := s;
  }

  /** strlwr: every upper-case letter of the string at s changed to lower case, in place. */
  method Strlwr(mem: array<byte>, s: nat) returns (r: nat)
    requires s <= mem.Length && 0 in mem[s..]
    modifies mem
    ensures r == s
    ensures mem[..] == CaseResult(old(mem[..]), s, false)
  {
    ConvertInPlace(mem, s, false, mem[..]);
    r := s;
  }

  // ---------------------------------------------------------------------
  // strdup
  // ---------------------------------------------------------------------

  /**
   * strdup: kmalloc(strlen(s) + 1) and memcpy of the string and its NUL
   * into it. The allocator's answer is the parameter p (0 for NULL); a
   * fresh block does not overlap the string.
   */
  method Strdup(mem: array<byte>, s: nat, p: nat) returns (r: nat)
    requires s <= mem.Length && 0 in mem[s..]
    requires p != 0 ==> p + Strlen(mem[s..]) + 1 <= mem.Length && Disjoint(p, Strlen(mem[s..]) + 1, s, Strlen(mem[s..]) + 1)
    modifies mem
    ensures p == 0 ==> r == 0 && mem[..] == old(mem[..])
    ensures p != 0 ==> r == p && mem[..] == Write(old(mem[..]), p, old(CStr(mem[s..])))
  {
    var len := Strlen(mem[s..]) + 1;
    if p == 0 {
      return 0;
    }
    assert mem[s..][..len] == mem[s..s + len];
    r := Memcpy(mem, p, s, len);
  }

  // ---------------------------------------------------------------------
  // strtok_r, strtok
  // ---------------------------------------------------------------------

  /** The string at i + k is the string at i without its first k characters. */
  lemma SuffixString(m: seq<byte>, i: nat, k: nat)
    requires i <= |m| && 0 in m[i..] && k <= Strlen(m[i..])
    ensures i + k < |m| && m[i..][k] == m[i + k] && 0 in m[i + k..]
    ensures Strlen(m[i + k..]) == Strlen(m[i..]) - k
  {
    assert m[i + k..] == m[i..][k..];
    StrlenUnique(m[i + k..], Strlen(m[i..]) - k);
  }

  /** What one call of strtok_r returns and leaves: the token, the new *saveptr and memory. */
  datatype TokenStep = TokenStep(token: Option<nat>, save: nat, mem: seq<byte>)

  /** `str += strspn(str, delim)`: where the token, if any, starts. */
  function TokenStart(m: seq<byte>, start: nat, delim: nat): (p: nat)
    requires start <= |m| && 0 in m[start..] && delim <= |m| && 0 in m[delim..]
    ensures start <= p <= start + Strlen(m[start..]) && p < |m| && 0 in m[p..]
  {
    SuffixString(m, start, Strspn(m[start..], m[delim..]));
    start + Strspn(m[start..], m[delim..])
  }

  /**
   * The token at p: strpbrk finds the next delimiter, which becomes a NUL
   * with *saveptr just past it; with none, *saveptr is set to the end of
   * the string (`strchr(token, '\0')`).
   */
  function TokenEnd(m: seq<byte>, p: nat, delim: nat): (r: TokenStep)
    requires p <= |m| && 0 in m[p..] && delim <= |m| && 0 in m[delim..]
    ensures |r.mem| == |m|
  {
    var k := Strpbrk(m[p..], m[delim..]);
    if k.None? then
      StrchrNul(m[p..]);
      TokenStep(Some(p), p + Strchr(m[p..], 0).value, m)
    else
      TokenStep(Some(p), p + k.value + 1, m[p + k.value := 0])
  }

  /** strtok_r from the string at start with the delimiter string at delim. */
  function NextToken(m: seq<byte>, start: nat, delim: nat): (r: TokenStep)
    requires start <= |m| && 0 in m[start..] && delim <= |m| && 0 in m[delim..]
  {
    var p := TokenStart(m, start, delim);
    if m[p] == 0 then TokenStep(None, p, m) else TokenEnd(m, p, delim)
  }

  /** The skip stops at the NUL or at the first character that is not a delimiter. */
  lemma SkipDelims(m: seq<byte>, start: nat, delim: nat)
    requires start <= |m| && 0 in m[start..] && delim <= |m| && 0 in m[delim..]
    ensures forall k :: start <= k < TokenStart(m, start, delim) ==> m[k] in Str(m[delim..])
    ensures m[TokenStart(m, start, delim)] == 0 || m[TokenStart(m, start, delim)] !in Str(m[delim..])
  {
    var a, p := m[start..], TokenStart(m, start, delim);
    forall k | start <= k < p
      ensures m[k] in Str(m[delim..])
    {
      assert a[k - start] == m[k];
    }
    assert a[p - start] == m[p];
  }

  /**
   * There is no token exactly when the rest of the string is all
   * delimiters; *saveptr is then left at the NUL and memory is unchanged.
   */
  lemma NoToken(m: seq<byte>, start: nat, delim: nat)
    requires start <= |m| && 0 in m[start..] && delim <= |m| && 0 in m[delim..]
    ensures NextToken(m, start, delim).token.None? <==>
      forall k :: start <= k < start + Strlen(m[start..]) ==> m[k] in Str(m[delim..])
    ensures NextToken(m, start, delim).token.None? ==>
      NextToken(m, start, delim).save == start + Strlen(m[start..]) && NextToken(m, start, delim).mem == m
  {
    var p, l := TokenStart(m, start, delim), Strlen(m[start..]);
    SkipDelims(m, start, delim);
    SuffixString(m, start, p - start);
    if m[p] == 0 {
      assert p == start + l;
    } else {
      assert p < start + l && m[p] !in Str(m[delim..]);
    }
  }

  /**
   * The end of a token of n characters at p: the byte after it was the
   * NUL, where *saveptr stays and memory is unchanged, or a delimiter,
   * which becomes the token's NUL with *saveptr just past it.
   */
  function Cut(m: seq<byte>, p: nat, n: nat): (r: TokenStep)
    requires p + n < |m|
  {
    if m[p + n] == 0 then TokenStep(Some(p), p + n, m)
    else TokenStep(Some(p), p + n + 1, m[p + n := 0])
  }

  /** The token at p ends where strcspn stops: strpbrk and strchr find that place. */
  lemma TokenEndCut(m: seq<byte>, p: nat, delim: nat)
    requires p <= |m| && 0 in m[p..] && delim <= |m| && 0 in m[delim..]
    ensures p + Strcspn(m[p..], m[delim..]) < |m|
    ensures TokenEnd(m, p, delim) == Cut(m, p, Strcspn(m[p..], m[delim..]))
  {
    var a, d := m[p..], m[delim..];
    var n := Strcspn(a, d);
    PbrkEnd(a, d);
    assert a[n] == m[p + n];
    var r := TokenEnd(m, p, delim);
    if m[p + n] == 0 {
      assert r.token == Some(p) && r.save == p + n && r.mem == m;
    } else {
      var k := Strpbrk(a, d);
      assert r == TokenStep(Some(p), p + k.value + 1, m[p + k.value := 0]);
      assert k.value == n;
    }
  }

  /** Where strpbrk and strchr(token, '\0') stop, in terms of strcspn. */
  lemma PbrkEnd(a: seq<byte>, d: seq<byte>)
    requires 0 in a && 0 in d
    ensures var n := Strcspn(a, d);
      (a[n] == 0 ==> Strpbrk(a, d) == None && Strchr(a, 0) == Some(n)) &&
      (a[n] != 0 ==> Strpbrk(a, d) == Some(n))
  {
    var n := Strcspn(a, d);
    StrpbrkIsStrcspn(a, d);
    if a[n] == 0 {
      StrlenUnique(a, n);
      StrchrNul(a);
    }
  }

  /** strcspn's answer read in memory: n non-delimiters, then a NUL or a delimiter. */
  lemma CspnAt(m: seq<byte>, p: nat, delim: nat)
    requires p <= |m| && 0 in m[p..] && delim <= |m| && 0 in m[delim..]
    ensures var n := Strcspn(m[p..], m[delim..]);
      p + n < |m| && (m[p + n] == 0 || m[p + n] in Str(m[delim..])) &&
      (forall k :: p <= k < p + n ==> m[k] != 0 && m[k] !in Str(m[delim..])) &&
      (m[p] != 0 && m[p] !in Str(m[delim..]) ==> n >= 1)
  {
    var a, n := m[p..], Strcspn(m[p..], m[delim..]);
    assert a[0] == m[p] && a[n] == m[p + n];
    forall k | p <= k < p + n
      ensures m[k] != 0 && m[k] !in Str(m[delim..])
    {
      assert a[k - p] == m[k];
    }
  }

  /** strcspn's answer n read in memory: n bytes that are not NUL, at least one when the first is no delimiter. */
  lemma CspnRun(m: seq<byte>, p: nat, delim: nat)
    requires p <= |m| && 0 in m[p..] && delim <= |m| && 0 in m[delim..]
    ensures var n := Strcspn(m[p..], m[delim..]);
      p + n < |m| && (forall k :: p <= k < p + n ==> m[k] != 0) &&
      (m[p] != 0 && m[p] !in Str(m[delim..]) ==> n >= 1)
  {
    var a, n := m[p..], Strcspn(m[p..], m[delim..]);
    assert a[0] == m[p];
    forall k | p <= k < p + n
      ensures m[k] != 0
    {
      assert a[k - p] == m[k];
    }
  }

  /** After a cut, the string at p is the token's n characters. */
  lemma CutString(m: seq<byte>, p: nat, n: nat)
    requires p + n < |m| && forall k :: p <= k < p + n ==> m[k] != 0
    ensures 0 in Cut(m, p, n).mem[p..] && Str(Cut(m, p, n).mem[p..]) == m[p..p + n]
  {
    var w, x := Cut(m, p, n).mem, m[p..p + n];
    assert w[p..][..n] == x;
    assert w[p..][n] == 0;
    StrOfRun(w[p..], x);
  }

  /** Bytes with no NUL followed by a NUL are the string there. */
  lemma StrOfRun(w: seq<byte>, x: seq<byte>)
    requires |x| < |w| && w[..|x|] == x && 0 !in x && w[|x|] == 0
    ensures 0 in w && Str(w) == x
  {
    forall k | 0 <= k < |x|
      ensures w[k] != 0
    {
      assert w[k] == x[k];
    }
    StrlenUnique(w, |x|);
  }

  /**
   * A token found at p: afterwards the string at p is exactly the n >= 1
   * original characters up to the first delimiter or the NUL (strcspn's
   * answer), none of them a delimiter.
   */
  lemma TokenString(m: seq<byte>, p: nat, delim: nat)
    requires p <= |m| && 0 in m[p..] && delim <= |m| && 0 in m[delim..]
    requires m[p] != 0 && m[p] !in Str(m[delim..])
    ensures var n := Strcspn(m[p..], m[delim..]);
      1 <= n && p + n < |m| && 0 in Cut(m, p, n).mem[p..] && Str(Cut(m, p, n).mem[p..]) == m[p..p + n]
  {
    CspnRun(m, p, delim);
    CutString(m, p, Strcspn(m[p..], m[delim..]));
  }

  /**
   * Where the next call resumes: *saveptr points at a string that is the
   * rest of the old one, strictly shorter than the string this call
   * started from when a token was found.
   */
  lemma TokenResume(m: seq<byte>, start: nat, delim: nat)
    requires start <= |m| && 0 in m[start..] && delim <= |m| && 0 in m[delim..]
    ensures var r := NextToken(m, start, delim);
      start <= r.save <= |m| && 0 in r.mem[r.save..] && 0 in m[r.save..] &&
      Str(r.mem[r.save..]) == Str(m[r.save..]) &&
      (r.token.Some? ==> Strlen(r.mem[r.save..]) < Strlen(m[start..]))
  {
    var p := TokenStart(m, start, delim);
    SuffixString(m, start, p - start);
    if m[p] != 0 {
      TokenEndCut(m, p, delim);
      var n := Strcspn(m[p..], m[delim..]);
      CutResume(m, start, p, n);
    }
  }

  /** After a cut of a token inside the string at start, the rest is a shorter string. */
  lemma CutResume(m: seq<byte>, start: nat, p: nat, n: nat)
    requires start <= p && p <= |m| && 0 in m[start..] && 0 in m[p..]
    requires p - start <= Strlen(m[start..]) && n <= Strlen(m[p..])
    requires Strlen(m[p..]) == Strlen(m[start..]) - (p - start) && p < |m| && m[p] != 0
    ensures var r := Cut(m, p, n);
      start <= r.save <= |m| && 0 in r.mem[r.save..] && 0 in m[r.save..] &&
      Str(r.mem[r.save..]) == Str(m[r.save..]) && Strlen(r.mem[r.save..]) < Strlen(m[start..])
  {
    SuffixString(m, p, n);
    StrlenStop(m, p, n);
    StrlenStop(m, p, 0);
    var r := Cut(m, p, n);
    if m[p + n] != 0 {
      SuffixString(m, p, n + 1);
      assert r.mem[r.save..] == m[r.save..];
      assert Strlen(r.mem[r.save..]) == Strlen(m[p..]) - (n + 1);
    } else {
      assert Strlen(m[p..]) == n;
    }
  }

  /**
   * strtok_r: the next token of the string at str, or, for NULL, of the
   * string *saveptr points at; returns the token (NULL for none) and the
   * new *saveptr.
   */
  method StrtokR(mem: array<byte>, str: Option<nat>, delim: nat, save: nat) returns (token: Option<nat>, save': nat)
    requires var s := if str.Some? then str.value else save; s <= mem.Length && 0 in mem[s..]
    requires delim <= mem.Length && 0 in mem[delim..]
    modifies mem
    ensures TokenStep(token, save', mem[..]) == NextToken(old(mem[..]), if str.Some? then str.value else save, delim)
  {
    var s := if str.Some? then str.value else save;
    var p := s + Strspn(mem[s..], mem[delim..]);
    assert p == TokenStart(mem[..], s, delim);
    if mem[p] == 0 {
      return None, p;
    }
    token, save' := EndToken(mem, p, delim);
  }

  /** The second half of strtok_r, from the token's first character on. */
  method EndToken(mem: array<byte>, p: nat, delim: nat) returns (token: Option<nat>, save': nat)
    requires p <= mem.Length && 0 in mem[p..] && delim <= mem.Length && 0 in mem[delim..]
    modifies mem
    ensures TokenStep(token, save', mem[..]) == TokenEnd(old(mem[..]), p, delim)
  {
    token := Some(p);
    var k := Strpbrk(mem[p..], mem[delim..]);
    if k.None? {
      StrchrNul(mem[p..]);
      save' := p + Strchr(mem[p..], 0).value;
    } else {
      mem[p + k.value] := 0;
      save' := p + k.value + 1;
    }
  }

  /** strtok: strtok_r with its *saveptr kept in the static variable `last`. */
  class Tokenizer {
    /** `static char* last`, NULL before the first call. */
    var last: Option<nat>

    constructor ()
      ensures last.None?
    {
      last := None;
    }

    /**
     * strtok: with NULL it goes on from `last`, which must have been set by
     * an earlier call (strtok_r would otherwise read through NULL).
     */
    method Strtok(mem: array<byte>, str: Option<nat>, delim: nat) returns (token: Option<nat>)
      requires str.Some? || last.Some?
      requires var s := if str.Some? then str.value else last.value; s <= mem.Length && 0 in mem[s..]
      requires delim <= mem.Length && 0 in mem[delim..]
      modifies this, mem
      ensures var r := NextToken(old(mem[..]), if str.Some? then str.value else old(last.value), delim);
        token == r.token && last == Some(r.save) && mem[..] == r.mem
    {
      var save := if last.Some? then last.value else 0;
      var save';
      token, save' := StrtokR(mem, str, delim, save);
      last := Some(save');
    }
  }
}
