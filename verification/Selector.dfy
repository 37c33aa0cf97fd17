/** Label selectors: "k1=v1,k2=v2". */
module Selector {
  import opened Bytes
  import opened Api
  import opened Paging
  import opened Trimming

  /** `strings.Split` at a byte. */
  function Split(s: Str, sep: Byte): (terms: seq<Str>)
    ensures terms != []
  {
    if s == [] then [[]]
    else
      var rest := Split(s[1..], sep);
      if s[0] == sep then [[]] + rest else [[s[0]] + rest[0]] + rest[1..]
  }

  // ----- parsing -----

  /** The labels after one more term; a later term overrides an earlier one. */
  function AddTerm(labels: Labels, term: Str): Option<Labels> {
    var t := Trim(term);
    if t == [] then Some(labels)
    else
      match Cut(t, '=')
      case None => None
      case Some((k, v)) => Some(labels[Trim(k) := Trim(v)])
  }

  function ParseTerms(terms: seq<Str>): Option<Labels> {
    if terms == [] then Some(map[])
    else
      match ParseTerms(terms[..|terms| - 1])
      case None => None
      case Some(labels) => AddTerm(labels, terms[|terms| - 1])
  }

  function Parse(sel: Str): Option<Labels> {
    if Trim(sel) == [] then Some(map[]) else ParseTerms(Split(Trim(sel), ','))
  }

  method ParseLabelSelector(sel: Str) returns (answer: Result<Labels, Code>)
    ensures answer == match Parse(sel) case None => Err(InvalidArgument) case Some(labels) => Ok(labels)
  {
    var s := Trim(sel);
    if s == [] {
      return Ok(map[]);
    }
    var out: Labels := map[];
    var terms := Split(s, ',');
    for i := 0 to |terms|
      invariant ParseTerms(terms[..i]) == Some(out)
    {
      NextTerm(terms, i, out);
      var term := Trim(terms[i]);
      if term == [] {
        continue;
      }
      var cut := Cut(term, '=');
      if cut.None? {
        FailureSticks(terms, i + 1);
        return Err(InvalidArgument);
      }
      out := out[Trim(cut.value.0) := Trim(cut.value.1)];
    }
    assert terms[..|terms|] == terms;
    return Ok(out);
  }

  lemma NextTerm(terms: seq<Str>, i: nat, labels: Labels)
    requires i < |terms| && ParseTerms(terms[..i]) == Some(labels)
    ensures ParseTerms(terms[..i + 1]) == AddTerm(labels, terms[i])
  {
    assert terms[..i + 1][..i] == terms[..i];
  }

  lemma {:induction false} FailureSticks(terms: seq<Str>, n: nat)
    requires n <= |terms| && ParseTerms(terms[..n]).None?
    ensures ParseTerms(terms).None?
    decreases |terms| - n
  {
    if n == |terms| {
      assert terms[..n] == terms;
    } else {
      assert terms[..n + 1][..n] == terms[..n];
      FailureSticks(terms, n + 1);
    }
  }

  // ----- splitting -----

  function Join(terms: seq<Str>): Str {
    if terms == [] then [] else if |terms| == 1 then terms[0] else terms[0] + [','] + Join(terms[1..])
  }

  lemma {:induction false} SplitAppend(a: Str, b: Str)
    requires ',' !in a
    ensures Split(a + b, ',') == [a + Split(b, ',')[0]] + Split(b, ',')[1..]
  {
    var terms := Split(b, ',');
    if a == [] {
      assert a + b == b && a + terms[0] == terms[0];
      assert terms == [terms[0]] + terms[1..];
    } else {
      assert (a + b)[1..] == a[1..] + b;
      SplitAppend(a[1..], b);
      assert ([a[1..] + terms[0]] + terms[1..])[1..] == terms[1..];
      assert [a[0]] + (a[1..] + terms[0]) == a + terms[0];
    }
  }

  /** Splitting undoes joining. */
  lemma {:induction false} SplitJoin(terms: seq<Str>)
    requires terms != [] && forall i :: 0 <= i < |terms| ==> ',' !in terms[i]
    ensures Split(Join(terms), ',') == terms
  {
    if |terms| == 1 {
      SplitAppend(terms[0], []);
      assert terms[0] + [] == terms[0];
    } else {
      var rest := [','] + Join(terms[1..]);
      SplitJoin(terms[1..]);
      assert rest[1..] == Join(terms[1..]);
      assert Join(terms) == terms[0] + rest;
      SplitAppend(terms[0], rest);
      assert Split(rest, ',') == [[]] + terms[1..];
      assert Split(rest, ',')[1..] == terms[1..];
      assert terms[0] + [] == terms[0];
    }
  }

  lemma {:induction false} JoinSplit(s: Str)
    ensures Join(Split(s, ',')) == s
    ensures forall i :: 0 <= i < |Split(s, ',')| ==> ',' !in Split(s, ',')[i]
  {
    if s == [] {
    } else {
      JoinSplit(s[1..]);
      var rest := Split(s[1..], ',');
      if s[0] == ',' {
        assert Split(s, ',')[1..] == rest;
      } else {
        var terms := [[s[0]] + rest[0]] + rest[1..];
        assert terms[1..] == rest[1..];
        assert Join(terms) == [s[0]] + Join(rest);
      }
      assert s == [s[0]] + s[1..];
    }
  }

  /** The terms of a selector are the one way to write it as comma-free terms joined by commas. */
  lemma SplitExactly(s: Str, terms: seq<Str>)
    requires terms != []
    ensures Split(s, ',') == terms <==> Join(terms) == s && forall i :: 0 <= i < |terms| ==> ',' !in terms[i]
  {
    JoinSplit(s);
    if Join(terms) == s && forall i :: 0 <= i < |terms| ==> ',' !in terms[i] {
      SplitJoin(terms);
    }
  }

  // ----- the outer trim changes nothing -----

  lemma {:induction false} ParseTermsByTrim(a: seq<Str>, b: seq<Str>)
    requires SameTerms(a, b)
    ensures ParseTerms(a) == ParseTerms(b)
  {
    if a == [] {
    } else {
      ParseTermsByTrim(a[..|a| - 1], b[..|b| - 1]);
    }
  }

  lemma {:induction false} SplitAppendRight(a: Str, r: Str)
    requires ',' !in r
    ensures var terms := Split(a, ',');
            Split(a + r, ',') == terms[..|terms| - 1] + [terms[|terms| - 1] + r]
  {
    if a == [] {
      assert a + r == r + [];
      SplitAppend(r, []);
    } else {
      assert (a + r)[1..] == a[1..] + r;
      SplitAppendRight(a[1..], r);
      PrependToTerms(a[0], Split(a[1..], ','), r);
    }
  }

  /** Growing the last term and prepending to the first do not get into each other's way. */
  lemma PrependToTerms(c: Byte, rest: seq<Str>, r: Str)
    requires rest != []
    ensures var m := |rest| - 1;
            var more := rest[..m] + [rest[m] + r];
            && [[]] + more == ([[]] + rest)[..m + 1] + [([[]] + rest)[m + 1] + r]
            && var terms := [[c] + rest[0]] + rest[1..];
               [[c] + more[0]] + more[1..] == terms[..m] + [terms[m] + r]
  {
    if |rest| == 1 {
      assert [c] + (rest[0] + r) == [c] + rest[0] + r;
    }
  }

  /** The same number of terms, that trim to the same. */
  predicate SameTerms(a: seq<Str>, b: seq<Str>) {
    |a| == |b| && forall i :: 0 <= i < |a| ==> Trim(a[i]) == Trim(b[i])
  }

  lemma SameButLast(terms: seq<Str>, t: Str)
    requires terms != [] && Trim(t) == Trim(terms[|terms| - 1])
    ensures SameTerms(terms[..|terms| - 1] + [t], terms)
  {
  }

  lemma SameButFirst(terms: seq<Str>, t: Str)
    requires terms != [] && Trim(t) == Trim(terms[0])
    ensures SameTerms([t] + terms[1..], terms)
  {
  }

  lemma SpaceBehind(core: Str, r: Str)
    requires Spaces(r)
    ensures SameTerms(Split(core + r, ','), Split(core, ','))
  {
    var terms := Split(core, ',');
    var last := terms[|terms| - 1];
    SpacesSeparateNothing(r);
    SplitAppendRight(core, r);
    TrimIgnoresSpaceBehind(last, r);
    SameButLast(terms, last + r);
  }

  lemma SpaceBefore(l: Str, core: Str)
    requires Spaces(l)
    ensures SameTerms(Split(l + core, ','), Split(core, ','))
  {
    var terms := Split(core, ',');
    SpacesSeparateNothing(l);
    SplitAppend(l, core);
    TrimIgnoresSpaceBefore(l, terms[0]);
    SameButFirst(terms, l + terms[0]);
  }

  /** White space around a selector only adds white space to its first and last terms. */
  lemma OuterTerms(l: Str, core: Str, r: Str)
    requires Spaces(l) && Spaces(r)
    ensures SameTerms(Split(l + core + r, ','), Split(core, ','))
  {
    SpaceBehind(core, r);
    SpaceBefore(l, core + r);
    assert l + core + r == l + (core + r);
  }

  /** A selector may be split before it is trimmed: it parses as its terms do. */
  lemma ParseIsParseTerms(sel: Str)
    ensures Parse(sel) == ParseTerms(Split(sel, ','))
  {
    var l, r := TrimCore(sel);
    OuterTerms(l, Trim(sel), r);
    ParseTermsByTrim(Split(sel, ','), Split(Trim(sel), ','));
    if Trim(sel) == [] {
      BlankParses();
    }
  }

  lemma BlankParses()
    ensures Split([], ',') == [[]] && ParseTerms([[]]) == Some(map[])
  {
  }

  // ----- what parses -----

  predicate BadTerm(term: Str) {
    Trim(term) != [] && '=' !in Trim(term)
  }

  lemma AddTermFails(labels: Labels, term: Str)
    ensures AddTerm(labels, term).None? <==> BadTerm(term)
  {
    CutFindsFirst(Trim(term), '=');
  }

  lemma {:induction false} ParseTermsFailure(terms: seq<Str>)
    ensures ParseTerms(terms).None? <==> exists i :: 0 <= i < |terms| && BadTerm(terms[i])
  {
    if terms == [] {
    } else {
      var n := |terms| - 1;
      ParseTermsFailure(terms[..n]);
      if ParseTerms(terms[..n]).Some? {
        AddTermFails(ParseTerms(terms[..n]).value, terms[n]);
      }
      if (exists i :: 0 <= i < n && BadTerm(terms[i])) {
        var i :| 0 <= i < n && BadTerm(terms[i]);
        assert BadTerm(terms[..n][i]);
      }
    }
  }

  /** Parsing fails exactly when some term between commas is not blank and has no '='. */
  lemma ParseFailsExactlyOnBadTerms(sel: Str)
    ensures Parse(sel).None? <==> exists i :: 0 <= i < |Split(sel, ',')| && BadTerm(Split(sel, ',')[i])
  {
    ParseIsParseTerms(sel);
    ParseTermsFailure(Split(sel, ','));
  }

  // ----- which term decides -----

  /** The key and value that a term gives, if any. */
  function Word(term: Str): Option<(Str, Str)> {
    match Cut(Trim(term), '=')
    case None => None
    case Some((k, v)) => Some((Trim(k), Trim(v)))
  }

  predicate IsPair(t: Str, a: Str, b: Str) {
    t == a + ['='] + b && '=' !in a
  }

  /** A term gives what stands before and after its first '=', trimmed. */
  lemma WordExactly(term: Str, k: Str, v: Str)
    ensures Word(term) == Some((k, v)) <==> exists a, b :: IsPair(Trim(term), a, b) && Trim(a) == k && Trim(b) == v
    ensures Word(term).None? <==> '=' !in Trim(term)
  {
    var t := Trim(term);
    CutFindsFirst(t, '=');
    if Word(term) == Some((k, v)) {
      var (a, b) := Cut(t, '=').value;
      assert IsPair(t, a, b) && Trim(a) == k && Trim(b) == v;
    }
    if a, b :| IsPair(t, a, b) && Trim(a) == k && Trim(b) == v {
      CutInverts(a, '=', b);
    }
  }

  function Words(terms: seq<Str>): (words: seq<Option<(Str, Str)>>)
    ensures |words| == |terms| && forall i :: 0 <= i < |terms| ==> words[i] == Word(terms[i])
  {
    seq(|terms|, i requires 0 <= i < |terms| => Word(terms[i]))
  }

  predicate Names(word: Option<(Str, Str)>, k: Str) {
    word.Some? && word.value.0 == k
  }

  /** Some word gives this value to this key, and no later one names it. */
  ghost predicate LastSays(words: seq<Option<(Str, Str)>>, k: Str, v: Str) {
    exists i :: 0 <= i < |words| && words[i] == Some((k, v)) && forall j :: i < j < |words| ==> !Names(words[j], k)
  }

  lemma LastSaysMore(words: seq<Option<(Str, Str)>>, word: Option<(Str, Str)>, k: Str, v: Str)
    ensures LastSays(words + [word], k, v) <==> word == Some((k, v)) || (LastSays(words, k, v) && !Names(word, k))
  {
    var more, n := words + [word], |words|;
    if LastSays(more, k, v) {
      var i :| 0 <= i < |more| && more[i] == Some((k, v)) && forall j :: i < j < |more| ==> !Names(more[j], k);
      if i < n {
        assert more[n] == word;
        assert words[i] == Some((k, v)) && forall j :: i < j < n ==> words[j] == more[j];
      }
    }
    if LastSays(words, k, v) && !Names(word, k) {
      var i :| 0 <= i < n && words[i] == Some((k, v)) && forall j :: i < j < n ==> !Names(words[j], k);
      assert more[i] == Some((k, v));
    }
    if word == Some((k, v)) {
      assert more[n] == Some((k, v));
    }
  }

  /** A term adds what it gives, and a blank one adds nothing. */
  lemma AddTermAdds(labels: Labels, term: Str)
    requires AddTerm(labels, term).Some?
    ensures AddTerm(labels, term).value == WithWord(labels, Word(term))
  {
  }

  /** The labels after one more word. */
  function WithWord(labels: Labels, word: Option<(Str, Str)>): Labels {
    match word
    case None => labels
    case Some((k, v)) => labels[k := v]
  }

  function Spoken(words: seq<Option<(Str, Str)>>): Labels {
    if words == [] then map[] else WithWord(Spoken(words[..|words| - 1]), words[|words| - 1])
  }

  lemma {:induction false} SpokenByLast(words: seq<Option<(Str, Str)>>, k: Str, v: Str)
    ensures k in Spoken(words) && Spoken(words)[k] == v <==> LastSays(words, k, v)
  {
    if words == [] {
    } else {
      var n := |words| - 1;
      SpokenByLast(words[..n], k, v);
      LastSaysMore(words[..n], words[n], k, v);
      assert words == words[..n] + [words[n]];
    }
  }

  lemma {:induction false} ParsedIsSpoken(terms: seq<Str>)
    requires ParseTerms(terms).Some?
    ensures ParseTerms(terms).value == Spoken(Words(terms))
  {
    if terms == [] {
    } else {
      var n := |terms| - 1;
      ParsedIsSpoken(terms[..n]);
      AddTermAdds(ParseTerms(terms[..n]).value, terms[n]);
      assert Words(terms)[..n] == Words(terms[..n]);
    }
  }

  /** What a selector asks for: each key has the value that the last term naming it gives. */
  lemma LastTermDecides(sel: Str, k: Str, v: Str)
    requires Parse(sel).Some?
    ensures k in Parse(sel).value && Parse(sel).value[k] == v <==> LastSays(Words(Split(sel, ',')), k, v)
  {
    ParseIsParseTerms(sel);
    ParsedIsSpoken(Split(sel, ','));
    SpokenByLast(Words(Split(sel, ',')), k, v);
  }

  // ----- printing and parsing back -----

  /** A printed term: blank, or a key and a value with white space around each. */
  datatype Printed =
    | Blank(space: Str)
    | Pair(before: Str, key: Str, afterKey: Str, beforeValue: Str, value: Str, after: Str)

  ghost predicate Printable(p: Printed) {
    match p
    case Blank(space) => Spaces(space)
    case Pair(a, k, b, c, v, d) =>
      && Spaces(a) && Spaces(b) && Spaces(c) && Spaces(d)
      && Trimmed(k) && ',' !in k && '=' !in k
      && Trimmed(v) && ',' !in v
  }

  function TermText(p: Printed): Str {
    match p
    case Blank(space) => space
    case Pair(a, k, b, c, v, d) => (a + k + b) + ['='] + (c + v + d)
  }

  function Texts(ps: seq<Printed>): (terms: seq<Str>)
    ensures |terms| == |ps|
    ensures forall i :: 0 <= i < |ps| ==> terms[i] == TermText(ps[i])
  {
    seq(|ps|, i requires 0 <= i < |ps| => TermText(ps[i]))
  }

  /** A selector printed from a map: its pairs in any order, possibly repeated, among blanks. */
  ghost predicate Prints(ps: seq<Printed>, labels: Labels) {
    && (forall i :: 0 <= i < |ps| ==> Printable(ps[i]))
    && PairsFrom(ps, labels)
    && (forall k :: k in labels ==> exists i :: 0 <= i < |ps| && ps[i].Pair? && ps[i].key == k)
  }

  /** The key side of a pair, without the white space before it. */
  lemma KeySide(a: Str, k: Str, b: Str) returns (l: Str, left: Str)
    requires Spaces(a) && Spaces(b) && Trimmed(k) && '=' !in k
    ensures a + k + b == l + left && Spaces(l) && Trim(left) == k && '=' !in left
    ensures StartsClean(left)
  {
    NoSpaces();
    TrimUnique([], k, b);
    assert [] + k + b == k + b;
    if k == [] {
      SpacesAppend(a, b);
      l, left := a + b, [];
      assert a + k + b == l + left;
    } else {
      SpacesSeparateNothing(b);
      CleanBeforeSpaces(k, b);
      l, left := a, k + b;
      assert a + k + b == l + left;
    }
  }

  /** The value side of a pair, without the white space after it. */
  lemma ValueSide(c: Str, v: Str, d: Str) returns (right: Str, r: Str)
    requires Spaces(c) && Spaces(d) && Trimmed(v)
    ensures c + v + d == right + r && Spaces(r) && Trim(right) == v
    ensures EndsClean(right)
  {
    NoSpaces();
    TrimUnique(c, v, []);
    assert c + v + [] == c + v;
    if v == [] {
      SpacesAppend(c, d);
      right, r := [], c + d;
      assert c + v + d == right + r;
    } else {
      CleanAfterSpaces(c, v);
      right, r := c + v, d;
    }
  }

  /** An equals sign is no part of white space. */
  lemma EqualsIsNoSpace(left: Str, right: Str)
    requires StartsClean(left) && EndsClean(right)
    ensures Trimmed(left + ['='] + right)
  {
    var s := left + ['='] + right;
    forall k | 0 < k <= |s| ensures !IsSpace(s[..k]) {
      if k <= |left| {
        assert s[..k] == left[..k];
      } else if IsSpace(s[..k]) {
        assert s[..k][|left|] == '=';
        SpaceBytes(s[..k]);
      }
    }
    forall i | 0 <= i < |s| ensures !IsSpace(s[i..]) {
      if i > |left| {
        assert s[i..] == right[i - |left| - 1..];
      } else if IsSpace(s[i..]) {
        assert s[i..][|left| - i] == '=';
        SpaceBytes(s[i..]);
      }
    }
  }

  /** The trimmed text of a pair: what is left of its key side and of its value side. */
  lemma PairCore(p: Printed) returns (left: Str, right: Str)
    requires Printable(p) && p.Pair?
    ensures Trim(TermText(p)) == left + ['='] + right && '=' !in left
    ensures Trim(left) == p.key && Trim(right) == p.value
  {
    var l, r;
    l, left := KeySide(p.before, p.key, p.afterKey);
    right, r := ValueSide(p.beforeValue, p.value, p.after);
    SidesTrim(l, left, right, r);
  }

  lemma SidesTrim(l: Str, left: Str, right: Str, r: Str)
    requires Spaces(l) && StartsClean(left) && EndsClean(right) && Spaces(r)
    ensures Trim((l + left) + ['='] + (right + r)) == left + ['='] + right
  {
    var core := left + ['='] + right;
    EqualsIsNoSpace(left, right);
    TrimUnique(l, core, r);
    assert (l + left) + ['='] + (right + r) == l + core + r;
  }

  /** One printed pair reads as its key and value. */
  lemma TermReadsBack(labels: Labels, p: Printed)
    requires Printable(p)
    ensures AddTerm(labels, TermText(p)) == Some(if p.Pair? then labels[p.key := p.value] else labels)
  {
    match p
    case Blank(space) =>
      NoSpaces();
      TrimUnique(space, [], []);
      assert space + [] + [] == space;
    case Pair(_, _, _, _, _, _) =>
      var left, right := PairCore(p);
      CutInverts(left, '=', right);
  }

  /** Only pairs of the map, and the keys of all printed pairs. */
  predicate PartOf(m: Labels, labels: Labels) {
    forall k :: k in m ==> k in labels && m[k] == labels[k]
  }

  predicate HasKeys(m: Labels, ps: seq<Printed>) {
    forall i :: 0 <= i < |ps| && ps[i].Pair? ==> ps[i].key in m
  }

  predicate PairsFrom(ps: seq<Printed>, labels: Labels) {
    forall i :: 0 <= i < |ps| && ps[i].Pair? ==> ps[i].key in labels && labels[ps[i].key] == ps[i].value
  }

  lemma {:induction false} TermsReadBack(ps: seq<Printed>, labels: Labels)
    requires (forall i :: 0 <= i < |ps| ==> Printable(ps[i])) && PairsFrom(ps, labels)
    ensures ParseTerms(Texts(ps)).Some?
    ensures PartOf(ParseTerms(Texts(ps)).value, labels) && HasKeys(ParseTerms(Texts(ps)).value, ps)
  {
    if ps == [] {
    } else {
      var n := |ps| - 1;
      TermsReadBack(ps[..n], labels);
      assert Texts(ps)[..n] == Texts(ps[..n]);
      var m := ParseTerms(Texts(ps[..n])).value;
      TermReadsBack(m, ps[n]);
      OneMorePair(ps, labels, m, if ps[n].Pair? then m[ps[n].key := ps[n].value] else m);
    }
  }

  lemma OneMorePair(ps: seq<Printed>, labels: Labels, m: Labels, m': Labels)
    requires ps != [] && PairsFrom(ps, labels) && PartOf(m, labels) && HasKeys(m, ps[..|ps| - 1])
    requires var p := ps[|ps| - 1]; m' == if p.Pair? then m[p.key := p.value] else m
    ensures PartOf(m', labels) && HasKeys(m', ps)
  {
  }

  lemma TermHasNoComma(p: Printed)
    requires Printable(p)
    ensures ',' !in TermText(p)
  {
    match p
    case Blank(space) => SpacesSeparateNothing(space);
    case Pair(a, _, b, c, _, d) =>
      SpacesSeparateNothing(a);
      SpacesSeparateNothing(b);
      SpacesSeparateNothing(c);
      SpacesSeparateNothing(d);
  }

  /** Parsing inverts printing: a map printed in any order, with blank terms and white space anywhere
      around keys and values, parses back to the map. */
  lemma ParseInvertsPrint(ps: seq<Printed>, labels: Labels)
    requires Prints(ps, labels)
    ensures Parse(Join(Texts(ps))) == Some(labels)
  {
    TermsReadBack(ps, labels);
    var m := ParseTerms(Texts(ps)).value;
    assert m == labels by {
      forall k | k in labels ensures k in m {
        var i :| 0 <= i < |ps| && ps[i].Pair? && ps[i].key == k;
      }
    }
    SplitTexts(ps);
  }

  lemma SplitTexts(ps: seq<Printed>)
    requires forall i :: 0 <= i < |ps| ==> Printable(ps[i])
    ensures Parse(Join(Texts(ps))) == ParseTerms(Texts(ps))
  {
    var terms := Texts(ps);
    ParseIsParseTerms(Join(terms));
    if ps == [] {
      BlankParses();
    } else {
      forall i | 0 <= i < |terms| ensures ',' !in terms[i] {
        TermHasNoComma(ps[i]);
      }
      SplitJoin(terms);
    }
  }
}
