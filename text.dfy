/** utils.py's `text_between`: the text between the first occurrence of one
    marker and the next occurrence of another. */
module Text {
  import opened Wrappers

  /** `pat` occurs in `text` starting at index `i`. */
  predicate OccursAt(text: string, pat: string, i: nat)
  {
    i + |pat| <= |text| && text[i..i + |pat|] == pat
  }

  /** `text.find(pat, from)` as an option: the least index at or after
      `from` where `pat` occurs. */
  function Find(text: string, pat: string, from: nat): (r: Option<nat>)
    requires from <= |text|
    ensures r.Some? ==> from <= r.value && OccursAt(text, pat, r.value)
    ensures r.Some? ==> forall j :: from <= j < r.value ==> !OccursAt(text, pat, j)
    ensures r.None? <==> forall j :: from <= j <= |text| ==> !OccursAt(text, pat, j)
    decreases |text| - from
  {
    if OccursAt(text, pat, from) then Some(from)
    else if from == |text| then None
    else Find(text, pat, from + 1)
  }

  /** `i` is the first position at or after `from` where `pat` occurs. */
  predicate FirstAt(text: string, pat: string, from: nat, i: nat)
  {
    from <= i && OccursAt(text, pat, i) && forall j :: from <= j < i ==> !OccursAt(text, pat, j)
  }

  /** `b` is the first `begin` in the text and `e` the first `end` after it. */
  predicate Between(text: string, begin: string, end: string, b: nat, e: nat)
  {
    FirstAt(text, begin, 0, b) && FirstAt(text, end, b + |begin|, e)
  }

  /** `text_between(text, begin, end)`. When `begin` is absent, `text.index`
      raises ValueError, the handler only logs it, and the next line reads the
      unbound `start`: UnboundLocalError. When `end` does not occur at or after
      `start`, the second `text.index` raises ValueError. Otherwise the result
      is the text from just after the first `begin` to the first `end` at or
      after that point. */
  function TextBetween(text: string, begin: string, end: string): (r: Result<string>)
    ensures r == Err(UnboundLocalError) <==> forall j :: 0 <= j <= |text| ==> !OccursAt(text, begin, j)
    ensures r == Err(ValueError) <==>
      exists b: nat :: FirstAt(text, begin, 0, b) && forall j :: b + |begin| <= j <= |text| ==> !OccursAt(text, end, j)
    ensures r.Ok? <==> exists b: nat, e: nat :: Between(text, begin, end, b, e)
    ensures r.Ok? ==> forall b: nat, e: nat :: Between(text, begin, end, b, e) ==> r.value == text[b + |begin|..e]
  {
    match Find(text, begin, 0)
    case None => Err(UnboundLocalError)
    case Some(b) =>
      assert FirstAt(text, begin, 0, b);
      var start := b + |begin|;
      match Find(text, end, start)
      case None => Err(ValueError)
      case Some(e) =>
        assert Between(text, begin, end, b, e);
        Ok(text[start..e])
  }

  /** The slice runs from just after the first `begin` to the first `end` at
      or after that point. */
  lemma TextBetweenSlice(text: string, begin: string, end: string, b: nat, e: nat)
    requires Between(text, begin, end, b, e)
    ensures TextBetween(text, begin, end) == Ok(text[b + |begin|..e])
  {
  }

  /** An occurrence inside a slice is an occurrence in the whole text. */
  lemma OccursInSlice(text: string, pat: string, lo: nat, hi: nat, k: nat)
    requires lo <= hi <= |text|
    ensures OccursAt(text[lo..hi], pat, k) ==> OccursAt(text, pat, lo + k)
  {
    if OccursAt(text[lo..hi], pat, k) {
      forall i | 0 <= i < |pat|
        ensures text[lo + k + i] == pat[i]
      {
        assert text[lo..hi][k..k + |pat|][i] == pat[i];
      }
      assert text[lo + k..lo + k + |pat|] == pat;
    }
  }

  /** With a non-empty `end`, the extracted text never contains `end`. */
  lemma TextBetweenExcludesEnd(text: string, begin: string, end: string)
    requires |end| > 0 && TextBetween(text, begin, end).Ok?
    ensures forall k :: 0 <= k <= |TextBetween(text, begin, end).value| ==>
      !OccursAt(TextBetween(text, begin, end).value, end, k)
  {
    var b := Find(text, begin, 0).value;
    var start := b + |begin|;
    var e := Find(text, end, start).value;
    var r := text[start..e];
    assert TextBetween(text, begin, end).value == r;
    forall k | 0 <= k <= |r|
      ensures !OccursAt(r, end, k)
    {
      OccursInSlice(text, end, start, e, k);
    }
  }
}
