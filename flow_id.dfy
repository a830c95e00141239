/**
 * The flow-id extraction shared by the content script and the side panel:
 * the first match of the regular expression `[?&]flowId=([a-zA-Z0-9]{15,18})`
 * in a URL, and its capture group.
 */
module FlowId {
  import opened Wrappers

  /** The literal that follows the `?` or `&` separator. */
  const Key: string := "flowId="

  const MinTokenLength: nat := 15
  const MaxTokenLength: nat := 18

  predicate IsAlnum(c: char) {
    ('a' <= c <= 'z') || ('A' <= c <= 'Z') || ('0' <= c <= '9')
  }

  predicate IsSeparator(c: char) {
    c == '?' || c == '&'
  }

  predicate AllAlnum(s: string) {
    forall k :: 0 <= k < |s| ==> IsAlnum(s[k])
  }

  /** The shape of a flow id: 15 to 18 ASCII letters or digits. */
  predicate IsFlowIdToken(t: string) {
    MinTokenLength <= |t| <= MaxTokenLength && AllAlnum(t)
  }

  /** Index in `url` of the first character after the key that starts at `i`. */
  function TokenStart(i: nat): nat {
    i + 1 + |Key|
  }

  /** `url[i]` is `?` or `&` and is followed by `flowId=`. */
  predicate KeyAt(url: string, i: nat) {
    TokenStart(i) <= |url| && IsSeparator(url[i]) && url[i + 1 .. TokenStart(i)] == Key
  }

  /** The regular expression matches starting at index `i`: the key, then at least 15 alphanumerics. */
  predicate MatchesAt(url: string, i: nat) {
    KeyAt(url, i) && TokenStart(i) + MinTokenLength <= |url|
    && AllAlnum(url[TokenStart(i) .. TokenStart(i) + MinTokenLength])
  }

  /**
   * `t` is what the capture group holds for a match starting at `i`: a flow-id token
   * right after the key that the greedy quantifier cannot extend (it already has 18
   * characters, or the URL ends, or a non-alphanumeric character follows).
   */
  predicate IsCaptureAt(url: string, i: nat, t: string) {
    KeyAt(url, i) && IsFlowIdToken(t) && TokenStart(i) + |t| <= |url|
    && url[TokenStart(i) .. TokenStart(i) + |t|] == t
    && (|t| == MaxTokenLength || TokenStart(i) + |t| == |url| || !IsAlnum(url[TokenStart(i) + |t|]))
  }

  /** Number of consecutive alphanumeric characters of `s` starting at `from`. */
  function AlnumRun(s: string, from: nat): (n: nat)
    requires from <= |s|
    ensures from + n <= |s|
    ensures AllAlnum(s[from .. from + n])
    ensures from + n == |s| || !IsAlnum(s[from + n])
    decreases |s| - from
  {
    if from == |s| || !IsAlnum(s[from]) then 0
    else
      var rest := AlnumRun(s, from + 1);
      assert s[from .. from + 1 + rest] == [s[from]] + s[from + 1 .. from + 1 + rest];
      1 + rest
  }

  /** The capture group of a match attempted at index `i` alone (the regex engine's step at `i`). */
  function CaptureAt(url: string, i: nat): (r: Option<string>)
    ensures r.Some? <==> MatchesAt(url, i)
    ensures r.Some? ==> IsCaptureAt(url, i, r.value)
  {
    if !KeyAt(url, i) then None
    else
      var start := TokenStart(i);
      var run := AlnumRun(url, start);
      if run < MinTokenLength then
        assert start + MinTokenLength <= |url| ==> !AllAlnum(url[start .. start + MinTokenLength]) by {
          if start + MinTokenLength <= |url| {
            assert url[start .. start + MinTokenLength][run] == url[start + run];
          }
        }
        None
      else
        var len := if run < MaxTokenLength then run else MaxTokenLength;
        assert url[start .. start + len] == url[start .. start + run][..len];
        assert url[start .. start + MinTokenLength] == url[start .. start + run][..MinTokenLength];
        Some(url[start .. start + len])
  }

  /** The match object: where the match starts and what the capture group holds. */
  datatype Capture = Capture(index: nat, token: string)

  /**
   * The leftmost match at or after `from`, found the way the regex engine does:
   * try each start position in turn.
   */
  function MatchFrom(url: string, from: nat): (m: Option<Capture>)
    requires from <= |url|
    ensures m.None? ==> forall i :: from <= i < |url| ==> !MatchesAt(url, i)
    ensures m.Some? ==>
      && from <= m.value.index < |url|
      && MatchesAt(url, m.value.index)
      && IsCaptureAt(url, m.value.index, m.value.token)
      && forall i :: from <= i < m.value.index ==> !MatchesAt(url, i)
    decreases |url| - from
  {
    if from == |url| then None
    else
      match CaptureAt(url, from)
      case Some(t) => Some(Capture(from, t))
      case None => MatchFrom(url, from + 1)
  }

  /** `url.match(/[?&]flowId=([a-zA-Z0-9]{15,18})/)`, reduced to its capture group or `null`. */
  function GetFlowIdFromUrl(url: string): (r: Option<string>)
    ensures r.Some? ==> IsFlowIdToken(r.value)
    ensures r.None? <==> forall i :: 0 <= i < |url| ==> !MatchesAt(url, i)
  {
    match MatchFrom(url, 0)
    case Some(c) => Some(c.token)
    case None => None
  }

  /** The greedy capture at a given start is determined: there is only one. */
  lemma CaptureUnique(url: string, i: nat, t1: string, t2: string)
    requires IsCaptureAt(url, i, t1) && IsCaptureAt(url, i, t2)
    ensures t1 == t2
  {
  }

  /**
   * The converse of GetFlowIdFromUrl's contract: the greedy capture of the leftmost
   * match is exactly what is returned.
   */
  lemma GetFlowIdFromUrlExact(url: string, i: nat, t: string)
    requires MatchesAt(url, i) && IsCaptureAt(url, i, t)
    requires forall j :: 0 <= j < i ==> !MatchesAt(url, j)
    ensures GetFlowIdFromUrl(url) == Some(t)
  {
    var m := MatchFrom(url, 0);
    assert m.Some? && m.value.index == i;
    CaptureUnique(url, i, m.value.token, t);
  }

  /** When 18 or more alphanumerics follow the key of the leftmost match, exactly 18 are captured. */
  lemma LongRunTruncated(url: string, i: nat)
    requires KeyAt(url, i) && TokenStart(i) + MaxTokenLength <= |url|
    requires AllAlnum(url[TokenStart(i) .. TokenStart(i) + MaxTokenLength])
    requires forall j :: 0 <= j < i ==> !MatchesAt(url, j)
    ensures GetFlowIdFromUrl(url) == Some(url[TokenStart(i) .. TokenStart(i) + MaxTokenLength])
  {
    var start := TokenStart(i);
    var t := url[start .. start + MaxTokenLength];
    assert url[start .. start + MinTokenLength] == t[..MinTokenLength];
    assert IsCaptureAt(url, i, t);
    GetFlowIdFromUrlExact(url, i, t);
  }
}
