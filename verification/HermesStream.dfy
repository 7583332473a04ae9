/**
 The streaming reader of `<tool_call>` turns: how much of a turn that is still
 arriving is committed, and what is read out of the committed part.

 Decoding the body of one block is a parameter, `decode`; everything around it is
 modelled. Offsets count characters.
 */
module HermesStream {
  import opened Wrappers
  import opened Sequences
  import opened Strings
  import opened Tagged

  const OPEN := "<tool_call>"
  const CLOSE := "</tool_call>"

  // ----- what is held back

  predicate EndsWith(text: string, suffix: string) {
    |suffix| <= |text| && text[|text| - |suffix|..] == suffix
  }

  /** The longest prefix of `marker`, at most `len` long, that `text` ends with. */
  function LongestPrefix(text: string, marker: string, len: nat): nat
    requires len <= |marker|
  {
    if len == 0 || EndsWith(text, marker[..len]) then len else LongestPrefix(text, marker, len - 1)
  }

  /** `partial_marker_len`: the part of the text that may still become a marker. */
  function PartialMarkerLen(text: string): nat {
    var open := LongestPrefix(text, OPEN, |OPEN| - 1);
    var close := LongestPrefix(text, CLOSE, |CLOSE| - 1);
    if open >= close then open else close
  }

  /** `text` ends with a proper, non-empty beginning of `marker`, `len` long. */
  predicate Trails(text: string, marker: string, len: nat) {
    0 < len < |marker| && EndsWith(text, marker[..len])
  }

  lemma {:induction false} LongestPrefixIs(text: string, marker: string, len: nat)
    requires len < |marker|
    ensures LongestPrefix(text, marker, len) <= len
    ensures LongestPrefix(text, marker, len) > 0 ==> Trails(text, marker, LongestPrefix(text, marker, len))
    ensures forall k: nat :: Trails(text, marker, k) && k <= len ==> k <= LongestPrefix(text, marker, len)
  {
    if len > 0 && !EndsWith(text, marker[..len]) {
      LongestPrefixIs(text, marker, len - 1);
    }
  }

  /** What is held back is the longest trailing beginning of either marker. */
  lemma PartialMarkerIsLongest(text: string)
    ensures PartialMarkerLen(text) <= |text|
    ensures PartialMarkerLen(text) > 0 ==>
              Trails(text, OPEN, PartialMarkerLen(text)) || Trails(text, CLOSE, PartialMarkerLen(text))
    ensures forall k: nat :: Trails(text, OPEN, k) || Trails(text, CLOSE, k) ==> k <= PartialMarkerLen(text)
  {
    LongestPrefixIs(text, OPEN, |OPEN| - 1);
    LongestPrefixIs(text, CLOSE, |CLOSE| - 1);
  }

  /** The text the reader looks at. */
  function Visible(output: string): string {
    PartialMarkerIsLongest(output);
    output[..|output| - PartialMarkerLen(output)]
  }

  // ----- how much is committed

  /** The scan of the blocks from position `from` on: the start of a block that is
      not closed, or the end of the text. */
  function CommittedFrom(text: string, from: nat): (r: nat)
    requires from <= |text|
    ensures from <= r <= |text|
    decreases |text| - from
  {
    match Find(OPEN, text, from)
    case None => |text|
    case Some(open) =>
      match Find(CLOSE, text, open + |OPEN|)
      case None => open
      case Some(close) => CommittedFrom(text, close + |CLOSE|)
  }

  lemma CommittedUnfolds(text: string, from: nat)
    requires from <= |text|
    ensures CommittedFrom(text, from) ==
            match Find(OPEN, text, from)
            case None => |text|
            case Some(open) =>
              match Find(CLOSE, text, open + |OPEN|)
              case None => open
              case Some(close) => CommittedFrom(text, close + |CLOSE|)
  {
  }

  /** The offset up to which a turn is committed. */
  function Committed(output: string): (r: nat)
    ensures r <= |output|
  {
    PartialMarkerIsLongest(output);
    CommittedFrom(Visible(output), 0)
  }

  /** The loop of `parse_hermes_partial`, on a position instead of a remaining slice. */
  method CommittedLength(output: string) returns (committed: nat)
    ensures committed == Committed(output)
  {
    hide Find, StandsAt, Visible, CommittedFrom;
    var text := Visible(output);
    var rest := 0;
    committed := |text|;
    var open := Find(OPEN, text, rest);
    while open.Some?
      invariant rest <= |text| && committed == |text| && open == Find(OPEN, text, rest)
      invariant CommittedFrom(text, rest) == CommittedFrom(text, 0)
      decreases |text| - rest
    {
      CommittedUnfolds(text, rest);
      var close := Find(CLOSE, text, open.value + |OPEN|);
      if close.None? {
        committed := open.value;
        return;
      }
      rest := close.value + |CLOSE|;
      open := Find(OPEN, text, rest);
    }
    CommittedUnfolds(text, rest);
  }

  // ----- nothing straddles the end of what was visible

  predicate IsMarker(marker: string) {
    marker == OPEN || marker == CLOSE
  }

  /** A marker opens with `<` and holds no other. */
  lemma MarkerShape(marker: string, k: nat)
    requires IsMarker(marker) && k < |marker|
    ensures marker[k] == '<' <==> k == 0
  {
  }

  ghost predicate NothingStraddles(text: string, at: nat) {
    forall marker, p: nat :: IsMarker(marker) && StandsAt(marker, text, p) ==> p + |marker| <= at || at <= p
  }

  /** However the stream goes on, no marker will begin before the end of the visible
      text and end after it. */
  lemma VisibleEndIsNeverStraddled(s: string, t: string)
    ensures NothingStraddles(s + t, |Visible(s)|)
  {
    var end := |Visible(s)|;
    PartialMarkerIsLongest(s);
    forall marker, p: nat | IsMarker(marker) && StandsAt(marker, s + t, p)
      ensures p + |marker| <= end || end <= p
    {
      if p < end < p + |marker| {
        StraddlerIsHeldBack(s, t, marker, p);
      }
    }
  }

  lemma StraddlerIsHeldBack(s: string, t: string, marker: string, p: nat)
    requires IsMarker(marker) && StandsAt(marker, s + t, p)
    requires p < |s|
    ensures p + |marker| > |s| ==> |s| - p <= PartialMarkerLen(s)
    ensures p + |marker| <= |s| && PartialMarkerLen(s) > 0 ==>
              !(p < |s| - PartialMarkerLen(s) < p + |marker|)
  {
    hide PartialMarkerLen, LongestPrefix;
    var held := PartialMarkerLen(s);
    PartialMarkerIsLongest(s);
    if p + |marker| > |s| {
      var k := |s| - p;
      assert s[p..] == (s + t)[p..p + |marker|][..k] == marker[..k];
      assert Trails(s, marker, k);
    } else if held > 0 && p < |s| - held < p + |marker| {
      var begun := if Trails(s, OPEN, held) then OPEN else CLOSE;
      var at := |s| - held;
      assert s[at] == s[at..][0] == begun[..held][0] == '<';
      assert (s + t)[at] == (s + t)[p..p + |marker|][at - p] == marker[at - p];
      MarkerShape(marker, at - p);
    }
  }

  /** What is visible never shrinks. */
  lemma VisibleGrows(s: string, t: string)
    ensures |Visible(s)| <= |Visible(s + t)|
  {
    hide PartialMarkerLen, LongestPrefix;
    PartialMarkerIsLongest(s);
    PartialMarkerIsLongest(s + t);
    var held := PartialMarkerLen(s + t);
    if held > |t| {
      var marker := if Trails(s + t, OPEN, held) then OPEN else CLOSE;
      var k := held - |t|;
      assert s[|s| - k..] == (s + t)[|s + t| - held..][..k];
      assert marker[..held][..k] == marker[..k];
      assert Trails(s, marker, k);
    }
  }

  // ----- the scan of a longer text

  predicate Extends(longer: string, text: string) {
    |text| <= |longer| && longer[..|text|] == text
  }

  lemma StandsInPrefix(marker: string, text: string, longer: string, p: nat)
    requires Extends(longer, text) && p + |marker| <= |text|
    ensures StandsAt(marker, text, p) <==> StandsAt(marker, longer, p)
  {
  }

  /** A marker found in a text is found at the same place in any extension. */
  lemma FindInExtension(marker: string, text: string, longer: string, from: nat)
    requires Extends(longer, text) && Find(marker, text, from).Some?
    ensures Find(marker, longer, from) == Find(marker, text, from)
  {
    var at := Find(marker, text, from).value;
    forall k: nat | from <= k < at ensures !StandsAt(marker, longer, k) {
      StandsInPrefix(marker, text, longer, k);
    }
    StandsInPrefix(marker, text, longer, at);
    FindIs(marker, longer, from, at);
  }

  /** A marker missing from a text can only begin past its end in an extension that
      nothing straddles. */
  lemma FindPastTheEnd(marker: string, text: string, longer: string, from: nat)
    requires IsMarker(marker) && Extends(longer, text) && NothingStraddles(longer, |text|)
    requires Find(marker, text, from).None? && Find(marker, longer, from).Some?
    ensures Find(marker, longer, from).value >= |text|
  {
    var at := Find(marker, longer, from).value;
    if at + |marker| <= |text| {
      StandsInPrefix(marker, text, longer, at);
    }
  }

  lemma {:induction false} CommittedGrowsWithTheText(text: string, longer: string, from: nat)
    requires Extends(longer, text) && NothingStraddles(longer, |text|) && from <= |text|
    ensures CommittedFrom(text, from) <= CommittedFrom(longer, from)
    decreases |text| - from
  {
    hide NothingStraddles, Find, StandsAt, CommittedFrom;
    assert |text| <= |longer|;
    hide Extends;
    CommittedUnfolds(text, from);
    CommittedUnfolds(longer, from);
    var open := Find(OPEN, text, from);
    if open.None? {
      if Find(OPEN, longer, from).Some? {
        FindPastTheEnd(OPEN, text, longer, from);
      }
    } else {
      FindInExtension(OPEN, text, longer, from);
      var close := Find(CLOSE, text, open.value + |OPEN|);
      if close.Some? {
        FindInExtension(CLOSE, text, longer, open.value + |OPEN|);
        CommittedGrowsWithTheText(text, longer, close.value + |CLOSE|);
      }
    }
  }

  lemma StraddlingInPrefix(text: string, longer: string, at: nat)
    requires Extends(longer, text) && NothingStraddles(longer, at)
    ensures NothingStraddles(text, at)
  {
    forall marker, p: nat | IsMarker(marker) && StandsAt(marker, text, p)
      ensures p + |marker| <= at || at <= p
    {
      StandsInPrefix(marker, text, longer, p);
    }
  }

  /** What was committed stays committed, however the stream goes on. */
  lemma CommittedNeverDecreases(s: string, t: string)
    ensures Committed(s) <= Committed(s + t)
  {
    hide CommittedFrom, NothingStraddles, PartialMarkerLen;
    PartialMarkerIsLongest(s);
    PartialMarkerIsLongest(s + t);
    VisibleGrows(s, t);
    VisibleEndIsNeverStraddled(s, t);
    StraddlingInPrefix(Visible(s + t), s + t, |Visible(s)|);
    CommittedGrowsWithTheText(Visible(s), Visible(s + t), 0);
  }

  // ----- the committed part

  /** Every block opened from `from` on is closed. */
  predicate Closed(text: string, from: nat)
    requires from <= |text|
  {
    CommittedFrom(text, from) == |text|
  }

  lemma FindInCut(marker: string, text: string, end: nat, from: nat)
    requires end <= |text|
    ensures match Find(marker, text, from)
            case Some(at) => Find(marker, text[..end], from) == if at + |marker| <= end then Some(at) else None
            case None => Find(marker, text[..end], from).None?
  {
    var cut := text[..end];
    if Find(marker, cut, from).Some? {
      FindInExtension(marker, cut, text, from);
    } else if Find(marker, text, from).Some? && Find(marker, text, from).value + |marker| <= end {
      StandsInPrefix(marker, cut, text, Find(marker, text, from).value);
    }
  }

  lemma {:induction false} CommittedPartIsClosed(text: string, from: nat)
    requires from <= |text|
    ensures Closed(text[..CommittedFrom(text, from)], from)
    decreases |text| - from
  {
    hide Find, StandsAt, CommittedFrom;
    var end := CommittedFrom(text, from);
    CommittedUnfolds(text, from);
    CommittedUnfolds(text[..end], from);
    FindInCut(OPEN, text, end, from);
    var open := Find(OPEN, text, from);
    if open.None? {
      assert text[..end] == text;
    } else {
      var close := Find(CLOSE, text, open.value + |OPEN|);
      if close.Some? {
        FindInCut(CLOSE, text, end, open.value + |OPEN|);
        CommittedPartIsClosed(text, close.value + |CLOSE|);
      }
    }
  }

  lemma {:induction false} CommittedEndsAtAMarkerOrTheEnd(text: string, from: nat)
    requires from <= |text|
    ensures CommittedFrom(text, from) == |text| || StandsAt(OPEN, text, CommittedFrom(text, from))
    decreases |text| - from
  {
    hide Find, StandsAt;
    var open := Find(OPEN, text, from);
    if open.Some? {
      var close := Find(CLOSE, text, open.value + |OPEN|);
      if close.Some? {
        CommittedEndsAtAMarkerOrTheEnd(text, close.value + |CLOSE|);
      }
    }
  }

  /** The committed part holds no open block, and no marker will ever begin inside
      it and end outside, whatever arrives next. */
  lemma CommittedEndsBetweenMarkers(s: string, t: string)
    ensures Closed(s[..Committed(s)], 0)
    ensures NothingStraddles(s + t, Committed(s))
  {
    hide CommittedFrom, PartialMarkerLen;
    PartialMarkerIsLongest(s);
    var text, end := Visible(s), Committed(s);
    CommittedPartIsClosed(text, 0);
    assert text[..end] == s[..end];
    CommittedEndsAtAMarkerOrTheEnd(text, 0);
    if end == |text| {
      VisibleEndIsNeverStraddled(s, t);
    } else {
      assert text[end] == text[end..end + |OPEN|][0] == '<';
      forall marker, p: nat | IsMarker(marker) && StandsAt(marker, s + t, p)
        ensures p + |marker| <= end || end <= p
      {
        if p < end < p + |marker| {
          assert (s + t)[end] == (s + t)[p..p + |marker|][end - p] == marker[end - p];
          MarkerShape(marker, end - p);
        }
      }
    }
  }

  /** The whole text is committed exactly when every block is closed and nothing
      that may still become a marker trails. */
  lemma AllIsCommittedWhenClosed(s: string)
    ensures Committed(s) == |s| <==> PartialMarkerLen(s) == 0 && Closed(s, 0)
  {
    PartialMarkerIsLongest(s);
    if PartialMarkerLen(s) == 0 {
      assert Visible(s) == s;
    }
  }

  // ----- reading the turn

  /** The two ends of `str::trim`. */
  function TrimStart(s: string): string {
    if s != "" && IsSpace(s[0]) then TrimStart(s[1..]) else s
  }

  function TrimEnd(s: string): string {
    if s != "" && IsSpace(s[|s| - 1]) then TrimEnd(s[..|s| - 1]) else s
  }

  function Trim(s: string): string {
    TrimEnd(TrimStart(s))
  }

  /** How one block body is decoded, given its position among the turn's calls. */
  type Decoder<!C, !E> = (string, nat) -> Result<C, E>

  datatype CallError<E> = UnterminatedToolCall | BadCall(error: E)

  datatype ParsedCalls<C, E> = ParsedCalls(content: string, calls: seq<C>, errors: seq<(nat, CallError<E>)>)

  /** `parse_hermes` from position `from` on, `index` blocks having been closed
      before it; the content not yet trimmed. */
  function ParseFrom<C, E>(decode: Decoder<C, E>, text: string, from: nat, index: nat): ParsedCalls<C, E>
    requires from <= |text|
    decreases |text| - from
  {
    match Find(OPEN, text, from)
    case None => ParsedCalls(text[from..], [], [])
    case Some(open) =>
      match Find(CLOSE, text, open + |OPEN|)
      case None => ParsedCalls(text[from..open] + text[open..], [], [(index, UnterminatedToolCall)])
      case Some(close) =>
        WithBlock(text[from..open], decode(Trim(text[open + |OPEN|..close]), index), index,
                  ParseFrom(decode, text, close + |CLOSE|, index + 1))
  }

  /** One closed block, its decoded body and the prose before it, in front of the rest. */
  function WithBlock<C, E>(prose: string, call: Result<C, E>, index: nat, rest: ParsedCalls<C, E>): ParsedCalls<C, E> {
    match call
    case Ok(call) => ParsedCalls(prose + rest.content, [call] + rest.calls, rest.errors)
    case Err(error) => ParsedCalls(prose + rest.content, rest.calls, [(index, BadCall(error))] + rest.errors)
  }

  ghost predicate ReadsFurther<C, E>(later: ParsedCalls<C, E>, earlier: ParsedCalls<C, E>) {
    && IsPrefix(earlier.content, later.content) && IsPrefix(earlier.calls, later.calls)
    && IsPrefix(earlier.errors, later.errors)
  }

  lemma BlockKeepsPrefixes<C, E>(prose: string, call: Result<C, E>, index: nat,
                                 earlier: ParsedCalls<C, E>, later: ParsedCalls<C, E>)
    requires ReadsFurther(later, earlier)
    ensures ReadsFurther(WithBlock(prose, call, index, later), WithBlock(prose, call, index, earlier))
  {
  }

  function ParseHermes<C, E>(decode: Decoder<C, E>, output: string): ParsedCalls<C, E> {
    var parsed := ParseFrom(decode, output, 0, 0);
    parsed.(content := Trim(parsed.content))
  }

  /** What a streaming caller is handed: the content and the calls read so far. */
  datatype PartialAssistant<C> = PartialAssistant(content: string, calls: seq<C>)

  function FullRead<C, E>(decode: Decoder<C, E>, output: string): PartialAssistant<C> {
    var parsed := ParseHermes(decode, output);
    PartialAssistant(parsed.content, parsed.calls)
  }

  /** `parse_hermes_partial`: the full read of the committed part. */
  function PartialRead<C, E>(decode: Decoder<C, E>, output: string): PartialAssistant<C> {
    FullRead(decode, output[..Committed(output)])
  }

  /** Everything in `earlier` is still there, in front, in `later`. */
  ghost predicate Retains<C>(later: PartialAssistant<C>, earlier: PartialAssistant<C>) {
    IsPrefix(earlier.content, later.content) && IsPrefix(earlier.calls, later.calls)
  }

  lemma {:induction false} ClosedReadIsAPrefix<C, E>(decode: Decoder<C, E>, text: string, longer: string,
                                                    from: nat, index: nat)
    requires Extends(longer, text) && NothingStraddles(longer, |text|)
    requires from <= |text| && Closed(text, from)
    ensures ReadsFurther(ParseFrom(decode, longer, from, index), ParseFrom(decode, text, from, index))
    decreases |text| - from
  {
    hide NothingStraddles, Find, Trim, WithBlock, ReadsFurther;
    var open := Find(OPEN, text, from);
    if open.None? {
      OpenTextIsAPrefix(decode, text, longer, from, index);
    } else {
      FindInExtension(OPEN, text, longer, from);
      var close := Find(CLOSE, text, open.value + |OPEN|);
      FindInExtension(CLOSE, text, longer, open.value + |OPEN|);
      SliceOfSlice(longer, 0, |text|, open.value + |OPEN|, close.value);
      SliceOfSlice(longer, 0, |text|, from, open.value);
      var next := close.value + |CLOSE|;
      ClosedReadIsAPrefix(decode, text, longer, next, index + 1);
      BlockKeepsPrefixes(text[from..open.value], decode(Trim(text[open.value + |OPEN|..close.value]), index), index,
                         ParseFrom(decode, text, next, index + 1), ParseFrom(decode, longer, next, index + 1));
    }
  }

  lemma OpenTextIsAPrefix<C, E>(decode: Decoder<C, E>, text: string, longer: string, from: nat, index: nat)
    requires Extends(longer, text) && NothingStraddles(longer, |text|)
    requires from <= |text| && Find(OPEN, text, from).None?
    ensures ReadsFurther(ParseFrom(decode, longer, from, index), ParseFrom(decode, text, from, index))
  {
    hide NothingStraddles, Find, Trim;
    if Find(OPEN, longer, from).Some? {
      FindPastTheEnd(OPEN, text, longer, from);
    }
    SliceOfSlice(longer, 0, |text|, from, |text|);
    var later := ParseFrom(decode, longer, from, index);
    assert text[from..] == longer[from..|text|];
    assert later.content[..|text| - from] == longer[from..|text|];
  }

  lemma {:induction false} TrimStartKeepsPrefixes(a: string, b: string)
    requires IsPrefix(a, b)
    ensures TrimStart(a) == "" || IsPrefix(TrimStart(a), TrimStart(b))
  {
    if a != "" && IsSpace(a[0]) {
      TrimStartKeepsPrefixes(a[1..], b[1..]);
    }
  }

  lemma {:induction false} TrimEndIsAPrefix(a: string)
    ensures IsPrefix(TrimEnd(a), a) && (TrimEnd(a) != "" ==> !IsSpace(TrimEnd(a)[|TrimEnd(a)| - 1]))
  {
    if a != "" && IsSpace(a[|a| - 1]) {
      TrimEndIsAPrefix(a[..|a| - 1]);
    }
  }

  lemma {:induction false} TrimEndKeepsInk(a: string, b: string)
    requires IsPrefix(a, b) && (a != "" ==> !IsSpace(a[|a| - 1]))
    ensures IsPrefix(a, TrimEnd(b))
    decreases |b|
  {
    if b != "" && IsSpace(b[|b| - 1]) {
      assert |a| == |b| ==> a == b;
      TrimEndKeepsInk(a, b[..|b| - 1]);
    }
  }

  lemma TrimKeepsPrefixes(a: string, b: string)
    requires IsPrefix(a, b)
    ensures IsPrefix(Trim(a), Trim(b))
  {
    TrimStartKeepsPrefixes(a, b);
    TrimEndIsAPrefix(TrimStart(a));
    if TrimStart(a) != "" {
      var ink := TrimEnd(TrimStart(a));
      assert IsPrefix(ink, TrimStart(b)) by {
        SliceOfSlice(TrimStart(b), 0, |TrimStart(a)|, 0, |ink|);
      }
      TrimEndKeepsInk(ink, TrimStart(b));
    }
  }

  lemma CommittedReadIsRetained<C, E>(decode: Decoder<C, E>, s: string, longer: string)
    requires Extends(longer, s[..Committed(s)]) && NothingStraddles(longer, Committed(s))
    ensures Retains(FullRead(decode, longer), PartialRead(decode, s))
  {
    hide NothingStraddles, ParseFrom, Committed, Trim;
    CommittedEndsBetweenMarkers(s, "");
    var text := s[..Committed(s)];
    ClosedReadIsAPrefix(decode, text, longer, 0, 0);
    TrimKeepsPrefixes(ParseFrom(decode, text, 0, 0).content, ParseFrom(decode, longer, 0, 0).content);
  }

  /** Nothing a partial read hands out is ever taken back: however the stream goes
      on, every later partial read, and the full read of the finished turn, begins
      with the same content and the same calls. */
  lemma PartialReadsAreNeverRetracted<C, E>(decode: Decoder<C, E>, s: string, t: string)
    ensures Retains(FullRead(decode, s + t), PartialRead(decode, s))
    ensures Retains(PartialRead(decode, s + t), PartialRead(decode, s))
  {
    hide NothingStraddles, FullRead, Committed;
    var text := s[..Committed(s)];
    CommittedEndsBetweenMarkers(s, t);
    SliceOfSlice(s + t, 0, |s|, 0, Committed(s));
    assert (s + t)[..|s|] == s;
    CommittedReadIsRetained(decode, s, s + t);
    CommittedNeverDecreases(s, t);
    var later := (s + t)[..Committed(s + t)];
    SliceOfSlice(s + t, 0, Committed(s + t), 0, Committed(s));
    StraddlingInPrefix(later, s + t, Committed(s));
    CommittedReadIsRetained(decode, s, later);
  }

  /** When every block is closed and no marker prefix trails, the partial read is
      the full read. */
  lemma PartialReadOfAClosedTurnIsFull<C, E>(decode: Decoder<C, E>, s: string)
    requires PartialMarkerLen(s) == 0 && Closed(s, 0)
    ensures PartialRead(decode, s) == FullRead(decode, s)
  {
    AllIsCommittedWhenClosed(s);
    assert s[..|s|] == s;
  }

  // ----- what the full read consists of

  const CALL := Tags(OPEN, CLOSE)

  /** The blocks that decode, in order; the number of the first is `index`. */
  function CallsOf<C, E>(decode: Decoder<C, E>, blocks: seq<string>, index: nat): seq<C> {
    if blocks == [] then []
    else
      var call := decode(Trim(blocks[0]), index);
      (if call.Ok? then [call.value] else []) + CallsOf(decode, blocks[1..], index + 1)
  }

  /** Those that do not, with their numbers. */
  function ErrorsOf<C, E>(decode: Decoder<C, E>, blocks: seq<string>, index: nat): seq<(nat, CallError<E>)> {
    if blocks == [] then []
    else
      var call := decode(Trim(blocks[0]), index);
      (if call.Err? then [(index, BadCall(call.error))] else []) + ErrorsOf(decode, blocks[1..], index + 1)
  }

  /** A last tag that opens and is not closed. */
  ghost predicate IsLeftOpen(text: string) {
    exists at :: StandsAt(OPEN, text, at)
  }

  /** `parsed` reads the rest of a text as these blocks and what is around them. */
  ghost predicate Reads<C, E>(decode: Decoder<C, E>, parsed: ParsedCalls<C, E>, rest: string, index: nat,
                              outer: seq<string>, blocks: seq<string>)
  {
    && IsCutInto(CALL, rest, outer, blocks)
    && parsed.content == Flatten(outer)
    && parsed.calls == CallsOf(decode, blocks, index)
    && parsed.errors == ErrorsOf(decode, blocks, index) +
         (if IsLeftOpen(outer[|blocks|]) then [(index + |blocks|, UnterminatedToolCall)] else [])
  }

  lemma NothingLeftOpen(text: string, from: nat)
    requires from <= |text|
    ensures Find(OPEN, text, from).Some? <==> IsLeftOpen(text[from..])
  {
    hide StandsAt;
    var rest := text[from..];
    assert text[from..|text|] == rest;
    if Find(OPEN, text, from).Some? {
      var at := Find(OPEN, text, from).value;
      SameThere(OPEN, text, from, |text|, at - from);
    }
    if at :| StandsAt(OPEN, rest, at) {
      StandsInside(OPEN, rest, at);
      SameThere(OPEN, text, from, |text|, at);
    }
  }

  lemma ParseUnfolds<C, E>(decode: Decoder<C, E>, text: string, from: nat, index: nat, i: nat, j: nat)
    requires from <= |text| && Find(OPEN, text, from) == Some(i) && Find(CLOSE, text, i + |OPEN|) == Some(j)
    ensures ParseFrom(decode, text, from, index) ==
            WithBlock(text[from..i], decode(Trim(text[i + |OPEN|..j]), index), index,
                      ParseFrom(decode, text, j + |CLOSE|, index + 1))
  {
    hide Find, StandsAt, Trim, WithBlock;
  }

  lemma BlocksUnfold<C, E>(decode: Decoder<C, E>, block: string, blocks: seq<string>, index: nat)
    ensures var call := decode(Trim(block), index);
            && CallsOf(decode, [block] + blocks, index) ==
               (if call.Ok? then [call.value] else []) + CallsOf(decode, blocks, index + 1)
            && ErrorsOf(decode, [block] + blocks, index) ==
               (if call.Err? then [(index, BadCall(call.error))] else []) + ErrorsOf(decode, blocks, index + 1)
  {
    hide Trim;
    assert ([block] + blocks)[1..] == blocks;
  }

  lemma OneMoreRead<C, E>(decode: Decoder<C, E>, rest: ParsedCalls<C, E>, before: string, block: string, index: nat,
                          tail: string, all: string, more: seq<string>, blocks: seq<string>)
    requires Reads(decode, rest, tail, index + 1, more, blocks)
    requires IsCutInto(CALL, all, [before] + more, [block] + blocks)
    requires Flatten([before] + more) == before + Flatten(more)
    ensures Reads(decode, WithBlock(before, decode(Trim(block), index), index, rest), all, index,
                  [before] + more, [block] + blocks)
  {
    BlocksUnfold(decode, block, blocks, index);
    ReadsAreCut(decode, rest, tail, index + 1, more, blocks);
    hide IsCutInto, IsLeftOpen, Trim, CallsOf, ErrorsOf, Flatten;
    assert ([before] + more)[|blocks| + 1] == more[|blocks|];
  }

  lemma NoBlockIsRead<C, E>(decode: Decoder<C, E>, text: string, from: nat, index: nat)
    requires from <= |text|
    requires var open := Find(OPEN, text, from); open.None? || Find(CLOSE, text, open.value + |OPEN|).None?
    ensures Reads(decode, ParseFrom(decode, text, from, index), text[from..], index, [text[from..]], [])
  {
    NotCut(CALL, text, from);
    NothingLeftOpen(text, from);
    hide IsCutInto, StandsAt, IsLeftOpen;
    var open := Find(OPEN, text, from);
    assert open.Some? ==> text[from..open.value] + text[open.value..] == text[from..];
  }

  lemma ReadsAreCut<C, E>(decode: Decoder<C, E>, parsed: ParsedCalls<C, E>, rest: string, index: nat,
                          outer: seq<string>, blocks: seq<string>)
    requires Reads(decode, parsed, rest, index, outer, blocks)
    ensures IsCutInto(CALL, rest, outer, blocks) && |outer| == |blocks| + 1
  {
  }

  /** The full read is the content around the blocks, the blocks that decode and an error for
      each other one, an unclosed one at the end included. */
  lemma {:induction false} ParseReadsTheBlocks<C, E>(decode: Decoder<C, E>, text: string, from: nat, index: nat)
    returns (outer: seq<string>, blocks: seq<string>)
    requires from <= |text|
    ensures Reads(decode, ParseFrom(decode, text, from, index), text[from..], index, outer, blocks)
    decreases |text| - from
  {
    hide Reads, ParseFrom, StandsAt, Find;
    var open := Find(OPEN, text, from);
    if open.Some? && Find(CLOSE, text, open.value + |OPEN|).Some? {
      var i := open.value;
      var j := Find(CLOSE, text, i + |OPEN|).value;
      var more, rest := ParseReadsTheBlocks(decode, text, j + |CLOSE|, index + 1);
      outer, blocks := [text[from..i]] + more, [text[i + |OPEN|..j]] + rest;
      BlockIsRead(decode, text, from, index, i, j, more, rest);
    } else {
      outer, blocks := [text[from..]], [];
      NoBlockIsRead(decode, text, from, index);
    }
  }

  lemma BlockIsRead<C, E>(decode: Decoder<C, E>, text: string, from: nat, index: nat, i: nat, j: nat,
                          more: seq<string>, rest: seq<string>)
    requires from <= |text| && Find(OPEN, text, from) == Some(i) && Find(CLOSE, text, i + |OPEN|) == Some(j)
    requires Reads(decode, ParseFrom(decode, text, j + |CLOSE|, index + 1), text[j + |CLOSE|..], index + 1, more, rest)
    ensures Reads(decode, ParseFrom(decode, text, from, index), text[from..], index,
                  [text[from..i]] + more, [text[i + |OPEN|..j]] + rest)
  {
    hide Reads, ParseFrom, StandsAt, Find, IsCutInto, WithBlock, Trim, CallsOf, ErrorsOf, Flatten;
    ParseUnfolds(decode, text, from, index, i, j);
    ReadsAreCut(decode, ParseFrom(decode, text, j + |CLOSE|, index + 1), text[j + |CLOSE|..], index + 1, more, rest);
    CutOneMore(CALL, text, from, i, j, more, rest);
    OneMoreRead(decode, ParseFrom(decode, text, j + |CLOSE|, index + 1), text[from..i], text[i + |OPEN|..j], index,
                text[j + |CLOSE|..], text[from..], more, rest);
  }

  lemma {:induction false} TrimStartDropsSpace(s: string) returns (before: string)
    ensures s == before + TrimStart(s) && forall i :: 0 <= i < |before| ==> IsSpace(before[i])
    ensures TrimStart(s) != "" ==> !IsSpace(TrimStart(s)[0])
  {
    if s != "" && IsSpace(s[0]) {
      before := TrimStartDropsSpace(s[1..]);
      before := [s[0]] + before;
    } else {
      before := "";
    }
  }

  lemma {:induction false} TrimEndDropsSpace(s: string) returns (after: string)
    ensures s == TrimEnd(s) + after && forall i :: 0 <= i < |after| ==> IsSpace(after[i])
    ensures TrimEnd(s) != "" ==> !IsSpace(TrimEnd(s)[|TrimEnd(s)| - 1]) && TrimEnd(s)[0] == s[0]
  {
    if s != "" && IsSpace(s[|s| - 1]) {
      after := TrimEndDropsSpace(s[..|s| - 1]);
      after := after + [s[|s| - 1]];
    } else {
      after := "";
    }
  }

  /** Trimming drops white space at both ends, all of it, and nothing else. */
  lemma TrimDropsSpace(s: string) returns (before: string, after: string)
    ensures s == before + Trim(s) + after
    ensures forall i :: 0 <= i < |before| ==> IsSpace(before[i])
    ensures forall i :: 0 <= i < |after| ==> IsSpace(after[i])
    ensures Trim(s) != "" ==> !IsSpace(Trim(s)[0]) && !IsSpace(Trim(s)[|Trim(s)| - 1])
  {
    before := TrimStartDropsSpace(s);
    after := TrimEndDropsSpace(TrimStart(s));
  }

  /** What is handed out: the trimmed content and the calls of the full read. */
  lemma FullReadIs<C, E>(decode: Decoder<C, E>, output: string) returns (outer: seq<string>, blocks: seq<string>)
    ensures IsCutInto(CALL, output, outer, blocks)
    ensures FullRead(decode, output) == PartialAssistant(Trim(Flatten(outer)), CallsOf(decode, blocks, 0))
  {
    outer, blocks := ParseReadsTheBlocks(decode, output, 0, 0);
    assert output[0..] == output;
  }
}
