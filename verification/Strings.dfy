/** White space as Rust sees it, and searching a text. */
module Strings {
  import opened Wrappers

  /** `char::is_whitespace`. */
  predicate IsSpace(c: char) {
    || '\t' <= c <= '\r' || c == ' ' || c == '\U{85}' || c == '\U{A0}' || c == '\U{1680}'
    || '\U{2000}' <= c <= '\U{200A}'
    || c == '\U{2028}' || c == '\U{2029}' || c == '\U{202F}' || c == '\U{205F}' || c == '\U{3000}'
  }

  predicate StandsAt(marker: string, text: string, at: int) {
    0 <= at <= |text| - |marker| && text[at..at + |marker|] == marker
  }

  /** `str::find`, counted from `from`. */
  function Find(marker: string, text: string, from: nat): (r: Option<nat>)
    ensures r.Some? ==> from <= r.value <= |text| - |marker| && StandsAt(marker, text, r.value)
    ensures r.Some? ==> forall k :: from <= k < r.value ==> !StandsAt(marker, text, k)
    ensures r.None? ==> forall k :: from <= k ==> !StandsAt(marker, text, k)
    decreases |text| - from
  {
    if StandsAt(marker, text, from) then Some(from)
    else if from >= |text| then None
    else Find(marker, text, from + 1)
  }

  lemma FindIs(marker: string, text: string, from: nat, at: nat)
    requires from <= at && StandsAt(marker, text, at)
    requires forall k :: from <= k < at ==> !StandsAt(marker, text, k)
    ensures Find(marker, text, from) == Some(at)
  {
  }
}
