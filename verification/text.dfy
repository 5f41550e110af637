/** String predicates used by the request handlers: form-field truthiness and substring search. */
module Text {
  import opened Wrappers

  /** Python truthiness of an optional form value: the key is present and the string is non-empty. */
  predicate Filled(s: Option<string>) {
    s.Some? && |s.value| > 0
  }

  /** `q` occurs in `s` starting at offset `k`. */
  ghost predicate OccursAt(q: string, s: string, k: int) {
    0 <= k <= |s| - |q| && s[k..k + |q|] == q
  }

  /** Reference definition: `q` occurs in `s` at some offset. */
  ghost predicate IsSubstring(q: string, s: string) {
    exists k :: OccursAt(q, s, k)
  }

  /** Dropping the first character loses only the occurrence at offset 0. */
  lemma SubstringOfTail(q: string, s: string)
    requires |q| <= |s| && s[..|q|] != q
    ensures IsSubstring(q, s) <==> IsSubstring(q, s[1..])
  {
    if IsSubstring(q, s) {
      var k :| OccursAt(q, s, k);
      assert s[1..][k - 1..k - 1 + |q|] == s[k..k + |q|];
      assert OccursAt(q, s[1..], k - 1);
    }
    if IsSubstring(q, s[1..]) {
      var k :| OccursAt(q, s[1..], k);
      assert s[k + 1..k + 1 + |q|] == s[1..][k..k + |q|];
      assert OccursAt(q, s, k + 1);
    }
  }

  /** Executable substring search: the `%query%` LIKE pattern of the task search, without wildcards or case folding. */
  function Contains(s: string, q: string): (r: bool)
    ensures r <==> IsSubstring(q, s)
    decreases |s|
  {
    if |q| > |s| then
      false
    else if s[..|q|] == q then
      assert OccursAt(q, s, 0) by { assert s[0..0 + |q|] == s[..|q|]; }
      true
    else
      SubstringOfTail(q, s);
      Contains(s[1..], q)
  }
}
