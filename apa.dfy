/**
 * The text helpers of backend/app/utils/apa.py that decide what the APA Word
 * document says: `_strip_html`, the keyword line of the abstract page and the
 * numbered footnote lines. The python-docx calls that place these lines in the
 * document are not part of this model.
 */
module Apa {
  import opened Wrappers
  import opened Text
  import opened Sorting

  /** Some '<' is followed, somewhere later, by a '>': the regex `<[^>]*>` matches. */
  predicate HasTag(s: string) {
    exists i, j :: 0 <= i < j < |s| && s[i] == '<' && s[j] == '>'
  }

  /**
   * `re.sub(r"<[^>]*>", "", s)`: scanning from the left, each '<' that has a
   * '>' after it is deleted together with everything up to and including the
   * first such '>'; a '<' with no '>' after it stays.
   */
  function RemoveTags(s: string): (r: string)
    ensures forall c :: c in r ==> c in s
    decreases |s|
  {
    if s == [] then []
    else if s[0] == '<' && '>' in s[1..] then
      var parts := SplitOnce(s[1..], '>').value;
      assert s[1..] == parts.0 + ['>'] + parts.1;
      RemoveTags(parts.1)
    else
      [s[0]] + RemoveTags(s[1..])
  }

  /** `_strip_html(text)`: tags removed from `text or ""`, then surrounding whitespace. */
  function StripHtml(text: Option<string>): (r: string)
    ensures text.None? || text == Some("") ==> r == ""
    ensures r == [] || (!IsSpace(r[0]) && !IsSpace(r[|r| - 1]))
  {
    Strip(RemoveTags(text.GetOr("")))
  }

  /** No tag is left in the result of `_strip_html`. */
  lemma StripHtmlNoTag(text: Option<string>)
    ensures !HasTag(StripHtml(text))
  {
    RemoveTagsNoTag(text.GetOr(""));
    StripKeepsNoTag(RemoveTags(text.GetOr("")));
  }

  /** After the substitution no tag is left. */
  lemma {:induction false} RemoveTagsNoTag(s: string)
    ensures !HasTag(RemoveTags(s))
    decreases |s|
  {
    if s != [] {
      if s[0] == '<' && '>' in s[1..] {
        var parts := SplitOnce(s[1..], '>').value;
        RemoveTagsNoTag(parts.1);
      } else {
        RemoveTagsNoTag(s[1..]);
        var r := RemoveTags(s);
        var t := RemoveTags(s[1..]);
        TagInFront(s[0], t);
      }
    }
  }

  /** Text without tags passes the substitution unchanged. */
  lemma {:induction false} RemoveTagsIdentity(s: string)
    ensures !HasTag(s) ==> RemoveTags(s) == s
    decreases |s|
  {
    if s != [] {
      if s[0] == '<' && '>' in s[1..] {
        var k := IndexOf(s[1..], '>').value;
        assert s[0] == '<' && s[k + 1] == '>';
      } else {
        RemoveTagsIdentity(s[1..]);
        TagInTail(s);
        assert s == [s[0]] + s[1..];
      }
    }
  }

  /** A tag in `[x] + t` starts at x or lies within t. */
  lemma TagInFront(x: char, t: string)
    ensures HasTag([x] + t) ==> (x == '<' && '>' in t) || HasTag(t)
  {
    var r := [x] + t;
    if HasTag(r) {
      var i, j :| 0 <= i < j < |r| && r[i] == '<' && r[j] == '>';
      assert r[j] == t[j - 1];
      if i > 0 {
        assert t[i - 1] == '<';
      }
    }
  }

  lemma TagInTail(s: string)
    requires s != []
    ensures HasTag(s[1..]) ==> HasTag(s)
  {
    if HasTag(s[1..]) {
      var i, j :| 0 <= i < j < |s[1..]| && s[1..][i] == '<' && s[1..][j] == '>';
      assert s[i + 1] == '<' && s[j + 1] == '>';
    }
  }

  /**
   * A tag is deleted from its '<' through the first '>' after it, and the text
   * before it is kept, when that text holds no '<'.
   */
  lemma {:induction false} TagDeleted(a: string, m: string, b: string)
    requires '<' !in a && '>' !in m
    ensures RemoveTags(a + ['<'] + m + ['>'] + b) == a + RemoveTags(b)
    decreases |a|
  {
    var s := a + ['<'] + m + ['>'] + b;
    if a == [] {
      assert s[1..] == m + ['>'] + b;
      SplitOnceOfJoin(m, '>', b);
    } else {
      assert s[0] == a[0] && s[1..] == a[1..] + ['<'] + m + ['>'] + b;
      TagDeleted(a[1..], m, b);
      assert a == [a[0]] + a[1..];
    }
  }

  /** The characters of a in the order they appear in b, possibly with others between. */
  predicate IsSubsequence(a: string, b: string)
    decreases |b|
  {
    a == [] || (b != [] && ((a[0] == b[0] && IsSubsequence(a[1..], b[1..])) || IsSubsequence(a, b[1..])))
  }

  lemma {:induction false} SubsequenceOfSuffix(a: string, b: string, k: nat)
    requires k <= |b| && IsSubsequence(a, b[k..])
    ensures IsSubsequence(a, b)
    decreases k
  {
    if k > 0 {
      assert b[1..][k - 1..] == b[k..];
      SubsequenceOfSuffix(a, b[1..], k - 1);
    }
  }

  /** Every character that survives the substitution keeps its relative order. */
  lemma {:induction false} RemoveTagsSubsequence(s: string)
    ensures IsSubsequence(RemoveTags(s), s)
    decreases |s|
  {
    if s != [] {
      if s[0] == '<' && '>' in s[1..] {
        var parts := SplitOnce(s[1..], '>').value;
        RemoveTagsSubsequence(parts.1);
        assert s[|parts.0| + 2..] == parts.1;
        SubsequenceOfSuffix(RemoveTags(s), s, |parts.0| + 2);
      } else {
        RemoveTagsSubsequence(s[1..]);
        var r := RemoveTags(s);
        assert r[0] == s[0] && r[1..] == RemoveTags(s[1..]);
      }
    }
  }

  /** A slice of text without tags has no tags. */
  lemma StripKeepsNoTag(t: string)
    ensures HasTag(Strip(t)) ==> HasTag(t)
  {
    var r := Strip(t);
    var i, j := StripSlice(t);
    if HasTag(r) {
      var p, q :| 0 <= p < q < |r| && r[p] == '<' && r[q] == '>';
      assert t[i + p] == '<' && t[i + q] == '>';
    }
  }

  /** Text already without surrounding whitespace is its own strip. */
  lemma StripFixed(r: string)
    requires r == [] || (!IsSpace(r[0]) && !IsSpace(r[|r| - 1]))
    ensures Strip(r) == r
  {
    assert TrimStart(r) == r;
  }

  /** `_strip_html` applied to its own result changes nothing. */
  lemma StripHtmlIdempotent(text: Option<string>)
    ensures StripHtml(Some(StripHtml(text))) == StripHtml(text)
  {
    var r := StripHtml(text);
    StripHtmlNoTag(text);
    RemoveTagsIdentity(r);
    StripFixed(r);
  }

  const KEYWORDS_PREFIX: string := "KEYWORDS: "

  /** Each keyword in double quotes, `f'"{k}"'`. */
  function Quoted(keys: seq<string>): seq<string> {
    seq(|keys|, i requires 0 <= i < |keys| => "\"" + keys[i] + "\"")
  }

  /**
   * The keyword paragraph of `_make_abstract_page`: present only when the
   * abstract data has "keywords", listing them in `sorted` order.
   */
  function KeywordLine(keywords: Option<seq<string>>): (r: Option<string>)
    ensures r.Some? <==> keywords.Some?
  {
    match keywords
    case None => None
    case Some(keys) => Some(KEYWORDS_PREFIX + Join(", ", Quoted(SortBy(keys, StrLe))))
  }

  /** Python's string order is total and chains. */
  lemma StrLeTotalPreorder()
    ensures TotalPreorder(StrLe)
  {
    forall a, b ensures StrLe(a, b) || StrLe(b, a) {
      StrLeTotal(a, b);
    }
    forall a, b, c | StrLe(a, b) && StrLe(b, c) ensures StrLe(a, c) {
      StrLeTransitive(a, b, c);
    }
  }

  /**
   * The keyword line lists, quoted and joined by ", ", the one arrangement of
   * the keywords that is in string order.
   */
  lemma KeywordLineSorted(keys: seq<string>, s: seq<string>)
    requires SortedBy(s, StrLe) && multiset(s) == multiset(keys)
    ensures KeywordLine(Some(keys)) == Some(KEYWORDS_PREFIX + Join(", ", Quoted(s)))
  {
    StrLeTotalPreorder();
    SortBySorted(keys, StrLe);
    forall x, y | StrLe(x, y) && StrLe(y, x) ensures x == y {
      StrLeAntisymmetric(x, y);
    }
    SortedPermutationUnique(SortBy(keys, StrLe), s, StrLe);
  }

  /** The keyword line does not depend on the order the keywords were given in. */
  lemma KeywordLineOrderFree(a: seq<string>, b: seq<string>)
    requires multiset(a) == multiset(b)
    ensures KeywordLine(Some(a)) == KeywordLine(Some(b))
  {
    StrLeTotalPreorder();
    SortBySorted(a, StrLe);
    KeywordLineSorted(a, SortBy(a, StrLe));
    KeywordLineSorted(b, SortBy(a, StrLe));
  }

  const NO_FOOTNOTES: string := "No footnotes provided."

  /** The paragraphs under "Footnotes": each footnote stripped of tags and numbered from 1, or a placeholder. */
  function FootnoteLines(foots: seq<Option<string>>): (r: seq<string>)
    ensures |foots| == 0 ==> r == [NO_FOOTNOTES]
    ensures |foots| > 0 ==> |r| == |foots|
  {
    if |foots| == 0 then [NO_FOOTNOTES] else NumberedFrom(1, Project(foots, StripHtml))
  }

  /** `f"{i}. {text}"` for each text, as `enumerate(texts, k)` numbers them. */
  function NumberedFrom(k: nat, texts: seq<string>): (r: seq<string>)
    ensures |r| == |texts|
    decreases |texts|
  {
    if texts == [] then [] else [NatToString(k) + ". " + texts[0]] + NumberedFrom(k + 1, texts[1..])
  }

  lemma {:induction false} NumberedFromAt(k: nat, texts: seq<string>, i: nat)
    requires i < |texts|
    ensures NumberedFrom(k, texts)[i] == NatToString(k + i) + ". " + texts[i]
    decreases i
  {
    if i > 0 {
      NumberedFromAt(k + 1, texts[1..], i - 1);
    }
  }

  /** The number a line starts with, up to its first '.'. */
  function LineNumber(line: string): Option<nat> {
    match SplitOnce(line, '.')
    case None => None
    case Some((n, _)) => ParseNat(n)
  }

  /** The line after its first ". ". */
  function LineText(line: string): Option<string> {
    match SplitOnce(line, '.')
    case None => None
    case Some((_, rest)) => if |rest| > 0 && rest[0] == ' ' then Some(rest[1..]) else None
  }

  /** A line `"{n}. {t}"` reads back as n and t. */
  lemma NumberedLineReads(n: nat, t: string)
    ensures LineNumber(NatToString(n) + ". " + t) == Some(n)
    ensures LineText(NatToString(n) + ". " + t) == Some(t)
  {
    var s := NatToString(n);
    var rest := [' '] + t;
    assert s + ". " + t == s + ['.'] + rest;
    NoSeparatorInNumber(n, '.');
    SplitOnceOfJoin(s, '.', rest);
    ParseNatRoundTrip(n);
    assert rest[1..] == t;
  }

  /** The i-th footnote line reads back as number i + 1 followed by the i-th footnote, stripped. */
  lemma FootnoteNumbered(foots: seq<Option<string>>, i: nat)
    requires i < |foots|
    ensures LineNumber(FootnoteLines(foots)[i]) == Some(i + 1)
    ensures LineText(FootnoteLines(foots)[i]) == Some(StripHtml(foots[i]))
  {
    var texts := Project(foots, StripHtml);
    NumberedFromAt(1, texts, i);
    NumberedLineReads(i + 1, texts[i]);
  }
}
