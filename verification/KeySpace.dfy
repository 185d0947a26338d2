/** The key space that the sources share in the idempotency store. */
module KeySpace {

  function Namespaced(source: string, key: string): string {
    "idem:" + source + ":" + key
  }

  /** A stored key is the prefix, the source, a colon and the key, character for character. */
  lemma NamespacedParts(source: string, key: string, i: nat)
    requires i < |source| + 1 + |key|
    ensures Namespaced(source, key)[..5] == "idem:"
    ensures |Namespaced(source, key)| == 5 + |source| + 1 + |key|
    ensures Namespaced(source, key)[5 + i]
         == if i < |source| then source[i] else if i == |source| then ':' else key[i - |source| - 1]
  {
  }

  /** Equal keys of sources where the first is no longer than the second: the same, or nested at a colon. */
  lemma EqualKeys(s: string, t: string, k: string, l: string)
    requires |s| <= |t| && Namespaced(s, k) == Namespaced(t, l)
    ensures (s == t && k == l) || (s + ":" <= t && ':' in t)
  {
    NamespacedParts(s, k, 0);
    NamespacedParts(t, l, 0);
    assert |k| == |t| + |l| - |s|;
    forall i | 0 <= i < |s| + 1 + |k|
      ensures (if i < |s| then s[i] else if i == |s| then ':' else k[i - |s| - 1])
           == (if i < |t| then t[i] else if i == |t| then ':' else l[i - |t| - 1])
    {
      NamespacedParts(s, k, i);
      NamespacedParts(t, l, i);
    }
    assert forall i :: 0 <= i < |s| ==> s[i] == t[i];
    if |s| == |t| {
      forall i | 0 <= i < |k| ensures k[i] == l[i] {
        NamespacedParts(s, k, i + |s| + 1);
        NamespacedParts(t, l, i + |s| + 1);
      }
      assert k == l;
    } else {
      assert t[|s|] == ':';
    }
  }

  lemma NestedSourcesCollide(s: string, t: string)
    requires s + ":" <= t
    ensures exists k, l :: Namespaced(s, k) == Namespaced(t, l)
  {
    var k := t[|s| + 1..] + ":";
    assert t == s + ":" + t[|s| + 1..];
    assert Namespaced(s, k) == Namespaced(t, "");
  }

  /** Two sources can reach one stored key exactly when one of them extends the other at a colon. */
  lemma SourcesCollideIff(s: string, t: string)
    requires s != t
    ensures (exists k, l :: Namespaced(s, k) == Namespaced(t, l)) <==> s + ":" <= t || t + ":" <= s
  {
    if k, l :| Namespaced(s, k) == Namespaced(t, l) {
      if |s| <= |t| { EqualKeys(s, t, k, l); } else { EqualKeys(t, s, l, k); }
    }
    if s + ":" <= t {
      NestedSourcesCollide(s, t);
    }
    if t + ":" <= s {
      NestedSourcesCollide(t, s);
      var l, k :| Namespaced(t, l) == Namespaced(s, k);
      assert Namespaced(s, k) == Namespaced(t, l);
    }
  }

  /** Sources without a colon, as route segments usually are, keep their keys apart. */
  lemma ColonFreeSourcesAreApart(s: string, t: string, k: string, l: string)
    requires ':' !in s && ':' !in t
    requires Namespaced(s, k) == Namespaced(t, l)
    ensures s == t && k == l
  {
    if |s| <= |t| { EqualKeys(s, t, k, l); } else { EqualKeys(t, s, l, k); }
  }
}
