/** PHP's `str_replace` on one search string. */
module PhpString {

  /** `search` occurs in `s` starting at position `q`. */
  predicate OccursAt(s: string, search: string, q: int)
  {
    0 <= q && q + |search| <= |s| && s[q..q + |search|] == search
  }

  /** `search` occurs somewhere in `s`. */
  predicate Occurs(s: string, search: string)
  {
    exists q :: 0 <= q <= |s| && OccursAt(s, search, q)
  }

  /** `str_replace(search, rep, s)`: scans `s` from the left and replaces
      every non-overlapping occurrence of `search` by `rep`; the replaced
      text is not scanned again. An empty `search` leaves `s` unchanged. */
  function ReplaceAll(s: string, search: string, rep: string): (r: string)
    ensures |rep| == |search| ==> |r| == |s|
    decreases |s|
  {
    if search == [] || |s| < |search| then s
    else if s[..|search|] == search then rep + ReplaceAll(s[|search|..], search, rep)
    else [s[0]] + ReplaceAll(s[1..], search, rep)
  }

  /** A string in which `search` does not occur is left unchanged. */
  lemma {:induction false} ReplaceAbsent(s: string, search: string, rep: string)
    requires !Occurs(s, search)
    ensures ReplaceAll(s, search, rep) == s
    decreases |s|
  {
    if search != [] && |s| >= |search| {
      assert !OccursAt(s, search, 0);
      TailOccurrence(s, search);
      ReplaceAbsent(s[1..], search, rep);
      assert s == [s[0]] + s[1..];
    }
  }

  /** An occurrence in the tail of `s` is an occurrence in `s`. */
  lemma TailOccurrence(s: string, search: string)
    requires s != []
    ensures Occurs(s[1..], search) ==> Occurs(s, search)
  {
    if Occurs(s[1..], search) {
      var q :| 0 <= q <= |s[1..]| && OccursAt(s[1..], search, q);
      assert s[1..][q..q + |search|] == s[q + 1..q + 1 + |search|];
      assert OccursAt(s, search, q + 1);
    }
  }

  /** Replacing a string by itself changes nothing. */
  lemma {:induction false} ReplaceBySelf(s: string, search: string)
    ensures ReplaceAll(s, search, search) == s
    decreases |s|
  {
    if search == [] || |s| < |search| {
    } else if s[..|search|] == search {
      ReplaceBySelf(s[|search|..], search);
      assert s == s[..|search|] + s[|search|..];
    } else {
      ReplaceBySelf(s[1..], search);
      assert s == [s[0]] + s[1..];
    }
  }

  /** With no ".json" inside a non-empty `stem`, the scan of `stem + ".json"`
      does not match at its first position: a match there would lie inside
      `stem`, or would put the final extension's '.' where ".json" has a letter. */
  lemma NoMatchAtStart(stem: string)
    requires stem != [] && !Occurs(stem, ".json")
    ensures (stem + ".json")[..5] != ".json"
  {
    var s := stem + ".json";
    if |stem| >= 5 {
      assert !OccursAt(stem, ".json", 0);
      assert stem[0..5] == s[..5];
    } else {
      assert s[..5][|stem|] == '.';
      assert ".json"[|stem|] != '.';
    }
  }

  /** One step of the scan over `stem + ".json"`: the first character of a
      non-empty `stem` is kept and the scan goes on after it. */
  lemma ExtensionStep(stem: string, rep: string)
    requires stem != [] && !Occurs(stem, ".json")
    ensures ReplaceAll(stem + ".json", ".json", rep)
         == [stem[0]] + ReplaceAll(stem[1..] + ".json", ".json", rep)
  {
    NoMatchAtStart(stem);
    assert (stem + ".json")[1..] == stem[1..] + ".json";
  }

  /** When ".json" occurs nowhere in `stem`, the only ".json" in
      `stem + ".json"` is the final one, so it alone is replaced. */
  lemma {:induction false} ReplaceExtension(stem: string, rep: string)
    requires !Occurs(stem, ".json")
    ensures ReplaceAll(stem + ".json", ".json", rep) == stem + rep
    decreases |stem|
  {
    if stem == [] {
      assert stem + ".json" == ".json";
      assert ".json"[..5] == ".json" && ".json"[5..] == [];
    } else {
      ExtensionStep(stem, rep);
      TailOccurrence(stem, ".json");
      ReplaceExtension(stem[1..], rep);
      assert [stem[0]] + (stem[1..] + rep) == stem + rep;
    }
  }
}
