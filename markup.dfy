/**
 * The parsed-HTML tree that the scraper reads, and the handful of lookups it
 * performs on it: `find` (first match in document order among the descendants),
 * `find_all`, `find_next`, `get_text(strip=True)`, a tag's `.string`, and the
 * `str.lower()` / `in` / `startswith` string tests used by its heuristics.
 */
module Markup {
  import opened Wrappers

  /** An element (tag name, class list, the other attributes, children) or a text fragment. */
  datatype Node =
    | Elem(tag: string, classes: seq<string>, attrs: map<string, string>, children: seq<Node>)
    | Text(text: string)

  // ---------------------------------------------------------------------------
  // Document order
  // ---------------------------------------------------------------------------

  /** The proper descendants of `n`, in document (preorder) order. */
  function Descendants(n: Node): seq<Node>
    decreases n
  {
    match n
    case Text(_) => []
    case Elem(_, _, _, cs) => Forest(cs)
  }

  /** The nodes of a sequence of sibling subtrees, in document order. */
  function Forest(cs: seq<Node>): seq<Node>
    decreases cs
  {
    if cs == [] then [] else [cs[0]] + Descendants(cs[0]) + Forest(cs[1..])
  }

  /** Position `i` of `s` is followed by exactly the descendants of the node there. */
  predicate SubtreeAt(s: seq<Node>, i: int)
  {
    0 <= i < |s| && i + 1 + |Descendants(s[i])| <= |s| &&
    s[i + 1 .. i + 1 + |Descendants(s[i])|] == Descendants(s[i])
  }

  /** The first node of `[h] + Descendants(h) + rest` is followed by its subtree. */
  lemma SubtreeAtHead(h: Node, rest: seq<Node>)
    ensures SubtreeAt([h] + Descendants(h) + rest, 0)
  {
    var all := [h] + Descendants(h) + rest;
    assert all[1 .. 1 + |Descendants(h)|] == Descendants(h);
  }

  /** A subtree block inside `dh` is found one place later in `[h] + dh + rest`. */
  lemma SubtreeAtInFront(h: Node, dh: seq<Node>, rest: seq<Node>, i: int)
    requires SubtreeAt(dh, i)
    ensures SubtreeAt([h] + dh + rest, i + 1)
  {
    var all := [h] + dh + rest;
    var sub := Descendants(dh[i]);
    assert all[i + 1] == dh[i];
    assert all[1 .. 1 + |dh|] == dh;
    assert all[i + 2 .. i + 2 + |sub|] == all[1 .. 1 + |dh|][i + 1 .. i + 1 + |sub|];
  }

  /** A subtree block inside `rest` is found `|front|` places later in `front + rest`. */
  lemma SubtreeAtInRest(front: seq<Node>, rest: seq<Node>, j: int)
    requires SubtreeAt(rest, j)
    ensures SubtreeAt(front + rest, |front| + j)
  {
    assert (front + rest)[|front| ..] == rest;
    assert (front + rest)[|front| + j] == rest[j];
  }

  /**
   * In document order the subtree of a node is the block that immediately
   * follows it: this is what lets a search inside one found node, and a
   * `find_next` from it, be stated as positions in the whole document.
   */
  lemma {:induction false} ForestSubtree(cs: seq<Node>, i: nat)
    requires i < |Forest(cs)|
    ensures SubtreeAt(Forest(cs), i)
    decreases cs
  {
    var h := cs[0];
    var dh := Descendants(h);
    var rest := Forest(cs[1..]);
    assert Forest(cs) == [h] + dh + rest;
    if i == 0 {
      SubtreeAtHead(h, rest);
    } else if i <= |dh| {
      ForestSubtree(h.children, i - 1);
      SubtreeAtInFront(h, dh, rest, i - 1);
    } else {
      ForestSubtree(cs[1..], i - 1 - |dh|);
      SubtreeAtInRest([h] + dh, rest, i - 1 - |dh|);
    }
  }

  /** `ForestSubtree` for the descendants of one node (a whole document, say). */
  lemma SubtreeSlice(n: Node, i: nat)
    requires i < |Descendants(n)|
    ensures i + 1 + |Descendants(Descendants(n)[i])| <= |Descendants(n)|
    ensures Descendants(n)[i + 1 .. i + 1 + |Descendants(Descendants(n)[i])|]
         == Descendants(Descendants(n)[i])
  {
    ForestSubtree(n.children, i);
  }

  // ---------------------------------------------------------------------------
  // find / find_all
  // ---------------------------------------------------------------------------

  /** The position of the first node of `s` that satisfies `p`. */
  function FirstIndex(s: seq<Node>, p: Node -> bool): (r: Option<nat>)
    ensures r.Some? ==> r.value < |s| && p(s[r.value])
  {
    if s == [] then None
    else if p(s[0]) then Some(0)
    else match FirstIndex(s[1..], p)
      case None => None
      case Some(k) => Some(k + 1)
  }

  /** Nothing before the position `FirstIndex` finds matches, and `None` means nothing matches at all. */
  lemma {:induction false} FirstIndexSpec(s: seq<Node>, p: Node -> bool)
    ensures FirstIndex(s, p).Some? ==> forall j :: 0 <= j < FirstIndex(s, p).value ==> !p(s[j])
    ensures FirstIndex(s, p).None? ==> forall j :: 0 <= j < |s| ==> !p(s[j])
  {
    if s != [] && !p(s[0]) {
      FirstIndexSpec(s[1..], p);
      forall j | 1 <= j < |s| ensures s[j] == s[1..][j - 1] {
      }
    }
  }

  /** Position `i` of `s` holds the first node that satisfies `p`. */
  predicate FirstAt(s: seq<Node>, p: Node -> bool, i: int)
  {
    0 <= i < |s| && p(s[i]) && forall j :: 0 <= j < i ==> !p(s[j])
  }

  /** `FirstIndex` finds exactly the first match. */
  lemma FirstIndexAt(s: seq<Node>, p: Node -> bool, i: int)
    requires FirstAt(s, p, i)
    ensures FirstIndex(s, p) == Some(i)
  {
    FirstIndexSpec(s, p);
  }

  /** A first match at or after position `lo` of `d` is what `FirstIndex` finds in `d[lo..]`. */
  lemma FirstIndexInSuffix(d: seq<Node>, lo: int, p: Node -> bool, x: int)
    requires 0 <= lo <= x < |d| && p(d[x])
    requires forall m :: lo <= m < x ==> !p(d[m])
    ensures FirstIndex(d[lo..], p) == Some(x - lo)
  {
    var s := d[lo..];
    forall m | 0 <= m < x - lo ensures !p(s[m]) {
      assert s[m] == d[lo + m];
    }
    FirstIndexAt(s, p, x - lo);
  }

  /**
   * A first match within the block `d[lo .. lo + |b|]`, which is `b`, is what
   * `FirstIndex` finds in `b`.
   */
  lemma FirstIndexInBlock(d: seq<Node>, b: seq<Node>, lo: int, p: Node -> bool, x: int)
    requires 0 <= lo <= x < lo + |b| <= |d| && d[lo .. lo + |b|] == b && p(d[x])
    requires forall m :: lo <= m < x ==> !p(d[m])
    ensures FirstIndex(b, p) == Some(x - lo)
  {
    forall m | 0 <= m < x - lo ensures !p(b[m]) {
      assert b[m] == d[lo + m];
    }
    assert b[x - lo] == d[x];
    FirstIndexAt(b, p, x - lo);
  }

  /** `n.find(...)`: the first descendant of `n`, in document order, that matches. */
  function Find(n: Node, p: Node -> bool): Option<Node>
  {
    match FirstIndex(Descendants(n), p)
    case None => None
    case Some(i) => Some(Descendants(n)[i])
  }

  /**
   * `find` gives nothing exactly when no descendant matches, and otherwise the
   * matching descendant that comes first in document order.
   */
  lemma FindSpec(n: Node, p: Node -> bool)
    ensures Find(n, p).None? <==> forall m :: m in Descendants(n) ==> !p(m)
    ensures Find(n, p).Some? ==> Find(n, p).value in Descendants(n) && p(Find(n, p).value)
    ensures forall i :: FirstAt(Descendants(n), p, i) ==> Find(n, p) == Some(Descendants(n)[i])
  {
    FirstIndexSpec(Descendants(n), p);
  }

  /** The nodes of `s` that satisfy `p`, in their order in `s`. */
  function Filter(s: seq<Node>, p: Node -> bool): (r: seq<Node>)
    ensures |r| <= |s|
    ensures forall m :: m in r ==> m in s && p(m)
    ensures forall m :: m in s && p(m) ==> m in r
  {
    if s == [] then []
    else (if p(s[0]) then [s[0]] else []) + Filter(s[1..], p)
  }

  /** `find_all` keeps one node, or none, as that node matches. */
  lemma FilterSingle(x: Node, p: Node -> bool)
    ensures Filter([x], p) == if p(x) then [x] else []
  {
    assert [x][1..] == [];
  }

  /**
   * Filtering keeps the order of its input: the matches of `a + b` are the
   * matches of `a` followed by the matches of `b`.
   */
  lemma {:induction false} FilterAppend(a: seq<Node>, b: seq<Node>, p: Node -> bool)
    ensures Filter(a + b, p) == Filter(a, p) + Filter(b, p)
  {
    if a == [] {
      assert a + b == b;
    } else {
      assert (a + b)[0] == a[0];
      assert (a + b)[1..] == a[1..] + b;
      FilterAppend(a[1..], b, p);
    }
  }

  /** `n.find_all(...)`: every matching descendant of `n`, in document order. */
  function FindAll(n: Node, p: Node -> bool): seq<Node>
  {
    Filter(Descendants(n), p)
  }

  lemma {:induction false} FirstIndexIsHeadOfFilter(s: seq<Node>, p: Node -> bool)
    ensures FirstIndex(s, p).None? <==> Filter(s, p) == []
    ensures FirstIndex(s, p).Some? ==> Filter(s, p)[0] == s[FirstIndex(s, p).value]
  {
    if s != [] && !p(s[0]) {
      FirstIndexIsHeadOfFilter(s[1..], p);
    }
  }

  /** `find` is the head of `find_all`: the two searches agree on the first match. */
  lemma FindIsHeadOfFindAll(n: Node, p: Node -> bool)
    ensures Find(n, p).None? <==> FindAll(n, p) == []
    ensures Find(n, p).Some? ==> Find(n, p).value == FindAll(n, p)[0]
  {
    FirstIndexIsHeadOfFilter(Descendants(n), p);
  }

  // ---------------------------------------------------------------------------
  // Element tests
  // ---------------------------------------------------------------------------

  /** An element with the given tag name (`find('h2')`). */
  predicate IsTag(n: Node, tag: string)
  {
    n.Elem? && n.tag == tag
  }

  /** An element with the given tag that carries the class (`find('span', class_='price')`). */
  predicate TagWithClass(n: Node, tag: string, cls: string)
  {
    n.Elem? && n.tag == tag && cls in n.classes
  }

  /** An element with the given tag that has the attribute, whatever its value (`href=True`). */
  predicate TagWithAttr(n: Node, tag: string, name: string)
  {
    n.Elem? && n.tag == tag && name in n.attrs
  }

  /** `tag.get(name)`: the attribute's value, if the attribute is present. */
  function Attr(n: Node, name: string): Option<string>
  {
    if n.Elem? && name in n.attrs then Some(n.attrs[name]) else None
  }

  /**
   * `tag.string`: the text of a node whose only content is one text fragment,
   * looking through a chain of single-child elements; nothing otherwise.
   */
  function StringOf(n: Node): Option<string>
  {
    match n
    case Text(t) => Some(t)
    case Elem(_, _, _, cs) => if |cs| == 1 then StringOf(cs[0]) else None
  }

  // ---------------------------------------------------------------------------
  // Text
  // ---------------------------------------------------------------------------

  /** The characters Python's `str.isspace` accepts, which `str.strip()` removes. */
  predicate IsSpace(c: char)
  {
    c in {' ', '\t', '\n', '\r', '\U{B}', '\U{C}', '\U{1C}', '\U{1D}', '\U{1E}', '\U{1F}',
          '\U{85}', '\U{A0}', '\U{1680}', '\U{2028}', '\U{2029}', '\U{202F}', '\U{205F}', '\U{3000}'}
    || ('\U{2000}' <= c <= '\U{200A}')
  }

  /** The position of the first non-whitespace character of `s` at or after `i`, or `|s|`. */
  function SpanStart(s: string, i: nat): (r: nat)
    requires i <= |s|
    ensures i <= r <= |s|
    ensures forall k :: i <= k < r ==> IsSpace(s[k])
    ensures r < |s| ==> !IsSpace(s[r])
    decreases |s| - i
  {
    if i < |s| && IsSpace(s[i]) then SpanStart(s, i + 1) else i
  }

  /** The end of `s[lo..j]` once the whitespace at its end is dropped. */
  function SpanEnd(s: string, lo: nat, j: nat): (r: nat)
    requires lo <= j <= |s|
    ensures lo <= r <= j
    ensures forall k :: r <= k < j ==> IsSpace(s[k])
    ensures r > lo ==> !IsSpace(s[r - 1])
    decreases j
  {
    if j > lo && IsSpace(s[j - 1]) then SpanEnd(s, lo, j - 1) else j
  }

  /** No whitespace at either end of `s`. */
  predicate Trimmed(s: string)
  {
    s == [] || (!IsSpace(s[0]) && !IsSpace(s[|s| - 1]))
  }

  lemma TrimmedConcat(a: string, b: string)
    requires Trimmed(a) && Trimmed(b)
    ensures Trimmed(a + b)
  {
    if a != [] {
      assert (a + b)[0] == a[0];
    }
    if b != [] {
      assert (a + b)[|a + b| - 1] == b[|b| - 1];
    }
  }

  /** `r` occurs in `s` at position `a`. */
  predicate SliceAt(s: string, r: string, a: int)
  {
    0 <= a <= |s| - |r| && s[a .. a + |r|] == r
  }

  /** `r` is `s` with only whitespace cut off at its start (before `a`) and at its end. */
  predicate StrippedAt(s: string, r: string, a: int)
  {
    SliceAt(s, r, a) &&
    (forall k :: 0 <= k < a ==> IsSpace(s[k])) &&
    (forall k :: a + |r| <= k < |s| ==> IsSpace(s[k]))
  }

  /**
   * `str.strip()`: the slice of `s` left once the whitespace at both ends is
   * removed; empty exactly when `s` is all whitespace.
   */
  function Strip(s: string): (r: string)
    ensures Trimmed(r)
    ensures r == [] <==> forall i :: 0 <= i < |s| ==> IsSpace(s[i])
    ensures exists a :: StrippedAt(s, r, a)
  {
    var a := SpanStart(s, 0);
    var b := SpanEnd(s, a, |s|);
    assert StrippedAt(s, s[a..b], a);
    s[a..b]
  }

  /** Every text fragment of `s`, stripped, concatenated in order. */
  function JoinStripped(s: seq<Node>): (r: string)
    ensures Trimmed(r)
  {
    if s == [] then ""
    else
      var head := StrippedText(s[0]);
      var tail := JoinStripped(s[1..]);
      TrimmedConcat(head, tail);
      head + tail
  }

  /** What one node adds to `get_text(strip=True)`: its stripped text if it is a text fragment. */
  function StrippedText(x: Node): (r: string)
    ensures Trimmed(r)
  {
    if x.Text? then Strip(x.text) else ""
  }

  /** `tag.get_text(strip=True)`: the stripped text fragments below `n`, joined with no separator. */
  function GetText(n: Node): (r: string)
    ensures Trimmed(r)
  {
    JoinStripped(Descendants(n))
  }

  /** A single node contributes its own stripped text if it is a text fragment, and nothing otherwise. */
  lemma JoinStrippedSingle(x: Node)
    ensures JoinStripped([x]) == if x.Text? then Strip(x.text) else ""
  {
    assert [x][1..] == [];
  }

  /**
   * Fragments are stripped one by one and joined in document order: the text
   * of two runs of nodes is the text of the first followed by that of the second.
   */
  lemma {:induction false} JoinStrippedAppend(a: seq<Node>, b: seq<Node>)
    ensures JoinStripped(a + b) == JoinStripped(a) + JoinStripped(b)
    decreases |a|
  {
    if a == [] {
      assert a + b == b;
    } else {
      assert (a + b)[0] == a[0];
      assert (a + b)[1..] == a[1..] + b;
      JoinStrippedAppend(a[1..], b);
    }
  }

  /** The amount span of the sample price `45.000&nbsp;<span>$</span>`. */
  function SampleAmount(): Node
  {
    Elem("span", ["woocommerce-Price-amount"], map[],
         [Text("45.000\U{A0}"), Elem("span", ["woocommerce-Price-currencySymbol"], map[], [Text("$")])])
  }

  lemma SampleAmountNodes()
    ensures Descendants(SampleAmount()) ==
      [Text("45.000\U{A0}"), SampleAmount().children[1], Text("$")]
  {
    var sym := SampleAmount().children[1];
    var cs := SampleAmount().children;
    assert Descendants(sym) == [Text("$")] by {
      assert Forest([Text("$")]) == [Text("$")] + [] + Forest([]);
    }
    assert cs[1..] == [sym] && cs[1..][1..] == [];
    assert Forest([sym]) == [sym] + Descendants(sym) + Forest([]);
    assert Forest(cs) == [cs[0]] + Descendants(cs[0]) + Forest([sym]);
  }

  /**
   * The sample price: the no-break space ends the first fragment, so stripping
   * fragment by fragment drops it, while stripping the joined text once would
   * keep it.
   */
  lemma SamplePriceText()
    ensures GetText(SampleAmount()) == "45.000$"
    ensures Strip("45.000\U{A0}" + "$") == "45.000\U{A0}$"
  {
    var sym := SampleAmount().children[1];
    SampleAmountNodes();
    JoinStrippedAppend([Text("45.000\U{A0}")], [sym, Text("$")]);
    JoinStrippedAppend([sym], [Text("$")]);
    JoinStrippedSingle(Text("45.000\U{A0}"));
    JoinStrippedSingle(sym);
    JoinStrippedSingle(Text("$"));
    StripSample();
  }

  lemma StripSample()
    ensures Strip("45.000\U{A0}") == "45.000"
    ensures Strip("$") == "$"
    ensures Strip("45.000\U{A0}" + "$") == "45.000\U{A0}$"
  {
    var t := "45.000\U{A0}";
    assert !IsSpace(t[0]) && IsSpace(t[6]) && !IsSpace(t[5]);
    assert SpanStart(t, 0) == 0;
    assert SpanEnd(t, 0, 6) == 6;
    assert SpanEnd(t, 0, 7) == 6;
    var u := t + "$";
    assert !IsSpace(u[0]) && !IsSpace(u[7]);
    assert SpanStart(u, 0) == 0 && SpanEnd(u, 0, 8) == 8;
    assert SpanStart("$", 0) == 0 && SpanEnd("$", 0, 1) == 1;
  }

  /** Python's `str.lower()` as far as the ASCII needles of the scraper can tell. */
  function LowerChar(c: char): char
  {
    if 'A' <= c <= 'Z' then (c as int + 32) as char
    else if c == '\U{212A}' then 'k'  // KELVIN SIGN lower-cases to an ASCII letter
    else c
  }

  function Lower(s: string): (r: string)
    ensures |r| == |s|
    ensures forall i :: 0 <= i < |s| ==> r[i] == LowerChar(s[i])
  {
    if s == [] then [] else [LowerChar(s[0])] + Lower(s[1..])
  }

  /** `s.startswith(prefix)`. */
  predicate StartsWith(s: string, prefix: string)
  {
    |prefix| <= |s| && s[..|prefix|] == prefix
  }

  /** `sub in s`, scanning left to right. */
  predicate Contains(s: string, sub: string)
  {
    StartsWith(s, sub) || (s != [] && Contains(s[1..], sub))
  }

  lemma {:induction false} ContainsFromSlice(s: string, sub: string, i: int)
    requires SliceAt(s, sub, i)
    ensures Contains(s, sub)
    decreases i
  {
    if i == 0 {
      assert StartsWith(s, sub);
    } else {
      assert SliceAt(s[1..], sub, i - 1) by {
        assert s[1..][i - 1 .. i - 1 + |sub|] == s[i .. i + |sub|];
      }
      ContainsFromSlice(s[1..], sub, i - 1);
    }
  }

  lemma {:induction false} SliceFromContains(s: string, sub: string)
    requires Contains(s, sub)
    ensures exists i :: SliceAt(s, sub, i)
  {
    if StartsWith(s, sub) {
      assert SliceAt(s, sub, 0);
    } else {
      SliceFromContains(s[1..], sub);
      var i :| SliceAt(s[1..], sub, i);
      assert s[1..][i .. i + |sub|] == s[i + 1 .. i + 1 + |sub|];
      assert SliceAt(s, sub, i + 1);
    }
  }

  /** The scan agrees with the definition of a substring occurrence, in both directions. */
  lemma ContainsAt(s: string, sub: string)
    ensures Contains(s, sub) <==> exists i :: SliceAt(s, sub, i)
  {
    if Contains(s, sub) {
      SliceFromContains(s, sub);
    }
    if i :| SliceAt(s, sub, i) {
      ContainsFromSlice(s, sub, i);
    }
  }
}
