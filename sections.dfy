/** Section names: auto-discovery from the area titles of the page and the
    suffix match used to find the title of a named area. */
module Sections {
  import opened Seats

  /** An `.area_tit` element: its markup (`innerHTML`, which the area match
      reads) and its rendered text (`innerText`, which discovery reads). */
  datatype AreaTitle = AreaTitle(html: string, text: string)

  /** The characters `String.prototype.trim` removes: white space and line
      terminators as ECMAScript defines them. */
  predicate IsJsWhitespace(c: char) {
    var v := c as int;
    || v == 0x09 || v == 0x0A || v == 0x0B || v == 0x0C || v == 0x0D || v == 0x20
    || v == 0xA0 || v == 0x1680 || (0x2000 <= v <= 0x200A) || v == 0x2028 || v == 0x2029
    || v == 0x202F || v == 0x205F || v == 0x3000 || v == 0xFEFF
  }

  predicate AllWhitespace(s: string) {
    |s| == 0 || (IsJsWhitespace(s[0]) && AllWhitespace(s[1..]))
  }

  function TrimStart(s: string): string {
    if |s| > 0 && IsJsWhitespace(s[0]) then TrimStart(s[1..]) else s
  }

  function TrimEnd(s: string): string {
    if |s| > 0 && IsJsWhitespace(s[|s| - 1]) then TrimEnd(s[..|s| - 1]) else s
  }

  function Trim(s: string): string {
    TrimEnd(TrimStart(s))
  }

  lemma {:induction false} AllWhitespaceAppend(a: string, b: string)
    ensures AllWhitespace(a + b) <==> AllWhitespace(a) && AllWhitespace(b)
    decreases |a|
  {
    if |a| == 0 {
      assert a + b == b;
    } else {
      assert (a + b)[1..] == a[1..] + b;
      AllWhitespaceAppend(a[1..], b);
    }
  }

  /** Trimming the start drops a run of leading white space and stops at
      the first other character: what is left is the end of the input. */
  lemma {:induction false} TrimStartSpec(s: string)
    ensures |TrimStart(s)| <= |s|
    ensures TrimStart(s) == s[|s| - |TrimStart(s)|..]
    ensures AllWhitespace(s[..|s| - |TrimStart(s)|])
    ensures |TrimStart(s)| > 0 ==> !IsJsWhitespace(TrimStart(s)[0])
    decreases |s|
  {
    if |s| > 0 && IsJsWhitespace(s[0]) {
      var t := s[1..];
      TrimStartSpec(t);
      LeadingRunStep(s, |t| - |TrimStart(t)|);
    } else {
      assert s[..0] == [];
    }
  }

  /** A run of `k` white space characters after a leading white space
      character is a run of `k + 1` from the start, followed by the same rest. */
  lemma LeadingRunStep(s: string, k: nat)
    requires |s| > 0 && IsJsWhitespace(s[0]) && k < |s|
    requires AllWhitespace(s[1..][..k])
    ensures AllWhitespace(s[..k + 1])
    ensures s[1..][k..] == s[k + 1..]
  {
    assert s[..k + 1][1..] == s[1..][..k];
  }

  /** Trimming the end drops a run of trailing white space and stops at
      the last other character: what is left is the start of the input. */
  lemma {:induction false} TrimEndSpec(s: string)
    ensures |TrimEnd(s)| <= |s|
    ensures TrimEnd(s) == s[..|TrimEnd(s)|]
    ensures AllWhitespace(s[|TrimEnd(s)|..])
    ensures |TrimEnd(s)| > 0 ==> !IsJsWhitespace(TrimEnd(s)[|TrimEnd(s)| - 1])
    decreases |s|
  {
    if |s| > 0 && IsJsWhitespace(s[|s| - 1]) {
      var t := s[..|s| - 1];
      TrimEndSpec(t);
      var k := |TrimEnd(t)|;
      assert t[..k] == s[..k];
      assert s[k..] == t[k..] + [s[|s| - 1]];
      AllWhitespaceAppend(t[k..], [s[|s| - 1]]);
    } else {
      assert s[|s|..] == [];
    }
  }

  /** `trim` removes white space from both ends and nothing else: the input
      is white space, the trimmed text, white space; the trimmed text neither
      starts nor ends with white space. */
  lemma TrimSpec(s: string)
    ensures exists lead, trail :: s == lead + Trim(s) + trail && AllWhitespace(lead) && AllWhitespace(trail)
    ensures |Trim(s)| > 0 ==> !IsJsWhitespace(Trim(s)[0]) && !IsJsWhitespace(Trim(s)[|Trim(s)| - 1])
  {
    var mid := TrimStart(s);
    var r := Trim(s);
    TrimStartSpec(s);
    TrimEndSpec(mid);
    assert r == TrimEnd(mid);
    var lead, trail := s[..|s| - |mid|], mid[|r|..];
    SplitAround(s, |s| - |mid|, mid, r, trail);
    assert AllWhitespace(lead) && AllWhitespace(trail);
    if |r| > 0 {
      assert r[0] == mid[0];
      assert !IsJsWhitespace(r[0]) && !IsJsWhitespace(r[|r| - 1]);
    }
  }

  /** A suffix `mid` of `s`, split as `r + trail`, puts `r` between the
      prefix before `mid` and `trail`. */
  lemma SplitAround(s: string, k: nat, mid: string, r: string, trail: string)
    requires k <= |s| && mid == s[k..] && |r| <= |mid| && r == mid[..|r|] && trail == mid[|r|..]
    ensures s == s[..k] + r + trail
  {
    assert mid == r + trail;
    assert s == s[..k] + mid;
  }

  /** Trimming twice is trimming once. */
  lemma TrimIdempotent(s: string)
    ensures Trim(Trim(s)) == Trim(s)
  {
    var r := Trim(s);
    TrimSpec(s);
    assert TrimStart(r) == r;
    if |r| > 0 {
      assert TrimEnd(r) == r;
    }
  }

  /** The regular expression `name + "$"`, read as text: `s` ends with `suffix`. */
  predicate EndsWith(s: string, suffix: string) {
    |suffix| <= |s| && s[|s| - |suffix|..] == suffix
  }

  /** The first title, at index `i` or later, whose markup ends with `name`. */
  function FirstMatchFrom(titles: seq<AreaTitle>, name: string, i: nat): (r: Option<nat>)
    requires i <= |titles|
    ensures r.Some? ==> i <= r.value < |titles| && EndsWith(titles[r.value].html, name)
    ensures forall t :: i <= t < |titles| && (r.None? || t < r.value) ==> !EndsWith(titles[t].html, name)
    decreases |titles| - i
  {
    if i == |titles| then None
    else if EndsWith(titles[i].html, name) then Some(i)
    else FirstMatchFrom(titles, name, i + 1)
  }

  /** The title the area click lands on: the first in document order whose
      markup ends with the section name; none when no title does. */
  function FirstMatch(titles: seq<AreaTitle>, name: string): (r: Option<nat>)
    ensures r.Some? ==> r.value < |titles| && EndsWith(titles[r.value].html, name)
    ensures forall t :: 0 <= t < |titles| && (r.None? || t < r.value) ==> !EndsWith(titles[t].html, name)
  {
    FirstMatchFrom(titles, name, 0)
  }

  /** The auto-discovered section names: every title's text, trimmed, in
      document order. */
  function SectionList(titles: seq<AreaTitle>): seq<string> {
    seq(|titles|, i requires 0 <= i < |titles| => Trim(titles[i].text))
  }

  /** The sections a search tries: the requested ones when there are any,
      the discovered ones otherwise. */
  function ResolveSections(requested: seq<string>, titles: seq<AreaTitle>): seq<string> {
    if |requested| > 0 then requested else SectionList(titles)
  }

  /** The resolved list is empty exactly when nothing was requested and the
      page shows no area title; otherwise it is the request, or one trimmed
      name per title. */
  lemma ResolveSectionsSpec(requested: seq<string>, titles: seq<AreaTitle>)
    ensures |ResolveSections(requested, titles)| == 0 <==> |requested| == 0 && |titles| == 0
    ensures |requested| > 0 ==> ResolveSections(requested, titles) == requested
    ensures |requested| == 0 ==>
      && |ResolveSections(requested, titles)| == |titles|
      && forall i :: 0 <= i < |titles| ==> ResolveSections(requested, titles)[i] == Trim(titles[i].text)
  {
  }
}
