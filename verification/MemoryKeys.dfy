/** The memory-cache keys of AssetCache.cpp: a canonical URL, '@', and a decode bound. */
module MemoryKeys {
  import opened Text
  import opened ImageScaling

  /** A canonical, fully encoded URL. */
  type Url = Bytes

  function BoundSuffix(bound: Size): (suffix: Bytes)
    ensures '@' !in suffix
  {
    var normalized := NormalizedBound(bound);
    if normalized.IsValid() then
      DigitsOnly(Decimal(normalized.width));
      DigitsOnly(Decimal(normalized.height));
      Decimal(normalized.width) + "x" + Decimal(normalized.height)
    else "full"
  }

  lemma DigitsOnly(s: Bytes)
    requires AllDigits(s)
    ensures '@' !in s && 'x' !in s && 'f' !in s
  {
  }

  /** memoryKeyFor. */
  function MemoryKey(url: Url, bound: Size): Bytes {
    url + "@" + BoundSuffix(bound)
  }

  function LastIndexOf(s: Bytes, c: char): (i: int)
    ensures -1 <= i < |s|
    ensures i == -1 <==> c !in s
    ensures i >= 0 ==> s[i] == c && c !in s[i + 1..]
  {
    if s == [] then -1
    else if s[|s| - 1] == c then |s| - 1
    else
      var i := LastIndexOf(s[..|s| - 1], c);
      assert s == s[..|s| - 1] + [s[|s| - 1]];
      if i == -1 then -1
      else
        assert s[i + 1..] == s[..|s| - 1][i + 1..] + [s[|s| - 1]];
        i
  }

  /** The test removeMemoryEntriesForUrl applies to a key. */
  predicate BelongsTo(key: Bytes, url: Url) {
    LastIndexOf(key, '@') == |url| && url <= key
  }

  lemma {:induction false} LastIndexAt(s: Bytes, c: char, n: nat)
    requires n < |s| && s[n] == c && c !in s[n + 1..]
    ensures LastIndexOf(s, c) == n
  {
    if n == |s| - 1 {
    } else {
      assert s[|s| - 1] in s[n + 1..];
      assert s[n + 1..] == s[..|s| - 1][n + 1..] + [s[|s| - 1]];
      LastIndexAt(s[..|s| - 1], c, n);
    }
  }

  /** The last '@' of a key is where its URL ends, even when the URL contains '@' itself; so per-URL
      removal matches exactly that URL's keys. */
  lemma KeyBelongs(url: Url, bound: Size, other: Url)
    ensures BelongsTo(MemoryKey(url, bound), other) <==> url == other
  {
    var key := MemoryKey(url, bound);
    assert key[|url|] == '@' && key[|url| + 1..] == BoundSuffix(bound);
    LastIndexAt(key, '@', |url|);
    assert key[..|url|] == url;
  }

  lemma SuffixStart(bound: Size)
    ensures |BoundSuffix(bound)| > 0
    ensures IsDigit(BoundSuffix(bound)[0]) <==> NormalizedBound(bound).IsValid()
  {
    var normalized := NormalizedBound(bound);
    if normalized.IsValid() {
      assert BoundSuffix(bound)[0] == Decimal(normalized.width)[0];
    }
  }

  lemma SuffixInjective(b1: Size, b2: Size)
    requires BoundSuffix(b1) == BoundSuffix(b2)
    ensures NormalizedBound(b1) == NormalizedBound(b2)
  {
    var (n1, n2) := (NormalizedBound(b1), NormalizedBound(b2));
    SuffixStart(b1);
    SuffixStart(b2);
    if n1.IsValid() && n2.IsValid() {
      SplitAtX(Decimal(n1.width), Decimal(n1.height), Decimal(n2.width), Decimal(n2.height));
      DecimalInjective(n1.width, n2.width);
      DecimalInjective(n1.height, n2.height);
    }
  }

  lemma SplitAtX(a1: Bytes, b1: Bytes, a2: Bytes, b2: Bytes)
    requires AllDigits(a1) && AllDigits(a2) && a1 + "x" + b1 == a2 + "x" + b2
    ensures a1 == a2 && b1 == b2
  {
    var s := a1 + "x" + b1;
    DigitsOnly(a1);
    DigitsOnly(a2);
    assert s[|a1|] == 'x' && s[..|a1|] == a1 && s[|a1| + 1..] == b1;
    assert s[|a2|] == 'x' && s[..|a2|] == a2 && s[|a2| + 1..] == b2;
    FirstIndex(s, 'x', |a1|);
    FirstIndex(s, 'x', |a2|);
  }

  /** Keys are equal exactly for the same URL at the same normalized bound. */
  lemma KeysInjective(u1: Url, b1: Size, u2: Url, b2: Size)
    ensures MemoryKey(u1, b1) == MemoryKey(u2, b2) <==> u1 == u2 && NormalizedBound(b1) == NormalizedBound(b2)
  {
    if MemoryKey(u1, b1) == MemoryKey(u2, b2) {
      KeyBelongs(u1, b1, u1);
      KeyBelongs(u2, b2, u1);
      assert MemoryKey(u1, b1)[|u1| + 1..] == BoundSuffix(b1);
      assert MemoryKey(u2, b2)[|u2| + 1..] == BoundSuffix(b2);
      SuffixInjective(b1, b2);
    }
  }
}
