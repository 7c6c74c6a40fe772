/**
 * The key-naming convention of the data-access object: every value key lives in the
 * flat key space under "tableName=>" + table + ":" + key, and a table is scanned with
 * the glob pattern "tableName=>" + table + ":*".
 */
module Naming {
  import opened Wrappers

  /** Java's string concatenation renders a null String as the four letters "null". */
  function KeyText(key: Option<string>): (r: string)
    ensures key.Some? ==> r == key.value
    ensures key.None? ==> r == "null"
  {
    match key
    case None => "null"
    case Some(k) => k
  }

  /** The scan pattern of a table: its literal part, then one trailing '*'. */
  function GetPattern(t: string): (p: string)
    ensures |p| == |"tableName=>"| + |t| + 2
    ensures p[|p| - 1] == '*'
    ensures p[..|p| - 1] == "tableName=>" + t + ":"
  {
    "tableName=>" + t + ":*"
  }

  /** Number of leading characters shared by every key of table `t`: the pattern minus its '*'. */
  function StemLength(t: string): nat
  {
    |GetPattern(t)| - 1
  }

  /**
   * The store key of `key` in table `t`. Its first StemLength(t) characters are the
   * literal part of the table's pattern and the rest is the key's text.
   */
  function GetKey(t: string, key: Option<string>): (r: string)
    ensures |r| == StemLength(t) + |KeyText(key)|
    ensures r[..StemLength(t)] == GetPattern(t)[..StemLength(t)]
    ensures r[StemLength(t)..] == KeyText(key)
  {
    "tableName=>" + t + ":" + KeyText(key)
  }

  /**
   * The suffix getTableData keeps of a scanned key: `substring(getPattern(t).length() - 1)`.
   * Java's substring throws when the key is shorter; a scanned key never is.
   */
  function StripKey(t: string, sk: string): (k: string)
    requires StemLength(t) <= |sk|
    ensures |k| == |sk| - StemLength(t)
    ensures GetPattern(t)[..StemLength(t)] + k == sk <==> sk[..StemLength(t)] == GetPattern(t)[..StemLength(t)]
  {
    var k := sk[StemLength(t)..];
    assert sk == sk[..StemLength(t)] + k;
    k
  }

  /** A table name in which the glob matcher of KEYS sees no metacharacter. */
  predicate GlobFree(t: string)
  {
    forall i :: 0 <= i < |t| ==> t[i] !in "*?[\\"
  }

  /**
   * Whether a store key matches the table's pattern. For a GlobFree table the only
   * wildcard is the trailing '*', which matches any suffix, colons included, so the
   * keys that match are exactly the store keys of table `t`.
   */
  predicate MatchesPattern(t: string, sk: string): (b: bool)
    ensures b <==> StemLength(t) <= |sk| && sk == GetKey(t, Some(sk[StemLength(t)..]))
  {
    var n := StemLength(t);
    if n <= |sk| && sk[..n] == GetPattern(t)[..n] then
      var g := GetKey(t, Some(sk[n..]));
      assert g == g[..n] + g[n..] && sk == sk[..n] + sk[n..];
      true
    else
      false
  }

  /** Stripping the pattern length minus one from a table's key gives back the key's text. */
  lemma StripGetKey(t: string, key: Option<string>)
    ensures MatchesPattern(t, GetKey(t, key))
    ensures StripKey(t, GetKey(t, key)) == KeyText(key)
  {
  }

  /** Every key the scan of table `t` finds is the store key of its own stripped suffix. */
  lemma MatchedKeyIsTableKey(t: string, sk: string)
    requires MatchesPattern(t, sk)
    ensures sk == GetKey(t, Some(StripKey(t, sk)))
  {
    var k := StripKey(t, sk);
    var g := GetKey(t, Some(k));
    assert |g| == |sk|;
    assert g[..StemLength(t)] == sk[..StemLength(t)];
    assert g[StemLength(t)..] == sk[StemLength(t)..];
    assert g == g[..StemLength(t)] + g[StemLength(t)..];
    assert sk == sk[..StemLength(t)] + sk[StemLength(t)..];
  }

  /** For a fixed table the store key determines the key's text. */
  lemma GetKeyInjective(t: string, a: Option<string>, b: Option<string>)
    requires GetKey(t, a) == GetKey(t, b)
    ensures KeyText(a) == KeyText(b)
    ensures a.Some? && b.Some? ==> a == b
  {
    StripGetKey(t, a);
    StripGetKey(t, b);
  }

  /** Distinct non-null keys of one table have distinct store keys. */
  lemma GetKeyDistinct(t: string, a: Option<string>, b: Option<string>)
    requires a.Some? && b.Some? && a != b
    ensures GetKey(t, a) != GetKey(t, b)
  {
    assert GetKey(t, a)[StemLength(t)..] != GetKey(t, b)[StemLength(t)..];
  }

  /** The quantified form of GetKeyInjective, for non-null keys. */
  lemma GetKeyInjectiveAll(t: string)
    ensures forall a: Option<string>, b: Option<string> ::
              a.Some? && b.Some? && GetKey(t, a) == GetKey(t, b) ==> a == b
  {
    forall a: Option<string>, b: Option<string> | a.Some? && b.Some? && GetKey(t, a) == GetKey(t, b)
      ensures a == b
    {
      GetKeyInjective(t, a, b);
    }
  }

  /** A null key and the key "null" share one store key. */
  lemma NullKeyCollision(t: string)
    ensures GetKey(t, None) == GetKey(t, Some("null"))
  {
  }

  /** Two scanned keys of one table with the same suffix are the same key. */
  lemma StripInjectiveOnTable(t: string)
    ensures forall a, b :: MatchesPattern(t, a) && MatchesPattern(t, b) && StripKey(t, a) == StripKey(t, b) ==> a == b
  {
    forall a, b | MatchesPattern(t, a) && MatchesPattern(t, b) && StripKey(t, a) == StripKey(t, b)
      ensures a == b
    {
      MatchedKeyIsTableKey(t, a);
      MatchedKeyIsTableKey(t, b);
    }
  }

  /**
   * Across tables the convention is not injective: key u + ":" + k of table t and key k
   * of table t + ":" + u are one store key, which the scan of t finds with suffix u + ":" + k.
   */
  lemma CrossTableCollision(t: string, u: string, k: string)
    ensures GetKey(t, Some(u + ":" + k)) == GetKey(t + ":" + u, Some(k))
    ensures MatchesPattern(t, GetKey(t + ":" + u, Some(k)))
    ensures StripKey(t, GetKey(t + ":" + u, Some(k))) == u + ":" + k
  {
    assert "tableName=>" + t + ":" + (u + ":" + k) == "tableName=>" + (t + ":" + u) + ":" + k;
    StripGetKey(t, Some(u + ":" + k));
  }

  /** The concrete instance: key "b:c" of table "a" is key "c" of table "a:b". */
  lemma CrossTableExample()
    ensures GetKey("a", Some("b:c")) == GetKey("a:b", Some("c"))
  {
    CrossTableCollision("a", "b", "c");
  }
}
