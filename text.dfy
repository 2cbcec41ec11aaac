/**
  White-space trimming as Go's strings.TrimSpace does it on ASCII input: it
  scans forward from the start and backward from the end past white space,
  and returns the slice in between.
 */
module Text {

  /** The six ASCII white-space characters: tab, line feed, vertical tab,
      form feed, carriage return and space. */
  predicate IsSpace(c: char) {
    c == '\t' || c == '\n' || c == '\U{0B}' || c == '\U{0C}' || c == '\r' || c == ' '
  }

  predicate AllSpace(s: string) {
    forall k :: 0 <= k < |s| ==> IsSpace(s[k])
  }

  /** The forward scan: from a position `i` with only white space before it,
      the index of the first non-space character (or `|s|`). */
  function SpanStart(s: string, i: nat): (start: nat)
    requires i <= |s|
    requires forall k :: 0 <= k < i ==> IsSpace(s[k])
    ensures i <= start <= |s|
    ensures forall k :: 0 <= k < start ==> IsSpace(s[k])
    ensures start < |s| ==> !IsSpace(s[start])
    decreases |s| - i
  {
    if i < |s| && IsSpace(s[i]) then SpanStart(s, i + 1) else i
  }

  /** The backward scan, which never passes `start`: from a position `j` with
      only white space after it, the index just past the last non-space
      character at or after `start` (or `start`). */
  function SpanStop(s: string, start: nat, j: nat): (stop: nat)
    requires start <= j <= |s|
    requires forall k :: j <= k < |s| ==> IsSpace(s[k])
    ensures start <= stop <= j
    ensures forall k :: stop <= k < |s| ==> IsSpace(s[k])
    ensures stop > start ==> !IsSpace(s[stop - 1])
    decreases j
  {
    if j > start && IsSpace(s[j - 1]) then SpanStop(s, start, j - 1) else j
  }

  /** strings.TrimSpace: the text between the first and the last non-space
      character. */
  function TrimSpace(s: string): string {
    var start := SpanStart(s, 0);
    s[start..SpanStop(s, start, |s|)]
  }

  /** What TrimSpace returns: a slice of `s` with only white space before
      and after it, which neither starts nor ends with white space; it is
      empty exactly when `s` is all white space. */
  lemma TrimSpaceSlice(s: string)
    ensures var r := TrimSpace(s);
            exists i :: 0 <= i <= |s| - |r| && r == s[i..][..|r|]
              && (forall k :: 0 <= k < i ==> IsSpace(s[k]))
              && (forall k :: i + |r| <= k < |s| ==> IsSpace(s[k]))
    ensures var r := TrimSpace(s);
            r == [] || (!IsSpace(r[0]) && !IsSpace(r[|r| - 1]))
    ensures TrimSpace(s) == [] <==> AllSpace(s)
  {
    var start := SpanStart(s, 0);
    var r := TrimSpace(s);
    assert r == s[start..][..|r|];
  }

  /** The trimmed slice is determined by its bounds: if `s[a..b]` is not
      empty, neither starts nor ends with white space, and only white space
      lies outside it, it is what TrimSpace returns. */
  lemma TrimSpaceBetween(s: string, a: nat, b: nat)
    requires a < b <= |s|
    requires !IsSpace(s[a]) && !IsSpace(s[b - 1])
    requires forall k :: 0 <= k < a ==> IsSpace(s[k])
    requires forall k :: b <= k < |s| ==> IsSpace(s[k])
    ensures TrimSpace(s) == s[a..b]
  {
    var start := SpanStart(s, 0);
    var stop := SpanStop(s, start, |s|);
    assert start == a;
    assert stop == b;
  }

  /** Trimming is exact: the white space around a text that neither starts
      nor ends with white space is removed, and the text is kept whole. */
  lemma TrimSpacePadded(lead: string, t: string, trail: string)
    requires AllSpace(lead) && AllSpace(trail)
    requires t == [] || (!IsSpace(t[0]) && !IsSpace(t[|t| - 1]))
    ensures TrimSpace(lead + t + trail) == t
  {
    var s := lead + t + trail;
    var a, b := |lead|, |lead| + |t|;
    assert forall k :: 0 <= k < a ==> s[k] == lead[k];
    assert forall k :: b <= k < |s| ==> s[k] == trail[k - b];
    if t == [] {
      assert AllSpace(s);
      TrimSpaceSlice(s);
    } else {
      assert s[a] == t[0] && s[b - 1] == t[|t| - 1];
      TrimSpaceBetween(s, a, b);
      assert s[a..b] == t;
    }
  }

  /** Trimming twice is trimming once. */
  lemma TrimSpaceIdempotent(s: string)
    ensures TrimSpace(TrimSpace(s)) == TrimSpace(s)
  {
    var r := TrimSpace(s);
    TrimSpaceSlice(s);
    TrimSpacePadded([], r, []);
    assert [] + r + [] == r;
  }
}
