/** The fact-list extractor of `get_facts`: the raw text returned by the fact
    service is cut into lines, each line is stripped and its leading list
    markers are peeled off, lines of a plausible length are kept, and at most
    five of them are returned, in their original order. */
module Facts {
  import opened Text

  /** The characters peeled from the front of a line, one `lstrip` each, in
      this order: the bullet U+2022 as its UTF-8 bytes read in Windows-1252
      (three characters: U+00E2, U+20AC, U+00A2), then '-', the ten digits,
      '.' and ' '. */
  const PeelOrder: string := "\U{E2}\U{20AC}\U{A2}-0123456789. "

  /** The most facts a reply carries. */
  const MaxFacts: nat := 5

  /** A cleaned line is kept when its length lies strictly between 10 and 120. */
  predicate Plausible(fact: string)
    ensures Plausible(fact) ==> fact != []
  {
    10 < |fact| < 120
  }

  /** Strips every character of `order`, one after the other, from the front
      of `s`; each step removes all leading copies of that one character,
      so what is left never starts with the last character of `order`. */
  function Peel(s: string, order: string): (r: string)
    ensures |r| <= |s|
    ensures order != [] && r != [] ==> r[0] != order[|order| - 1]
  {
    if order == [] then s
    else LStrip(Peel(s, order[..|order| - 1]), {order[|order| - 1]})
  }

  /** What one line becomes: stripped, then peeled. It is no longer than
      the line and, the last peel being the one of ' ', never starts with a
      space. */
  function Clean(line: string): (r: string)
    ensures |r| <= |line|
    ensures r == [] || r[0] != ' '
  {
    assert PeelOrder[|PeelOrder| - 1] == ' ';
    Peel(Strip(line), PeelOrder)
  }

  /** The lines of a service reply: the whole text stripped, then split at '\n'. */
  function Lines(body: string): (lines: seq<string>)
    ensures |lines| >= 1
    ensures forall l :: l in lines ==> '\n' !in l
    ensures Join(lines, '\n') == Strip(body)
  {
    Split(Strip(body), '\n')
  }

  /** Every line of `lines`, cleaned. */
  function CleanAll(lines: seq<string>): (cleaned: seq<string>)
    ensures |cleaned| == |lines|
  {
    seq(|lines|, i requires 0 <= i < |lines| => Clean(lines[i]))
  }

  /** The strings of `cleaned` that pass the length filter, in order. */
  function Kept(cleaned: seq<string>): (kept: seq<string>)
    ensures |kept| <= |cleaned|
    ensures forall f :: f in kept ==> Plausible(f)
  {
    if cleaned == [] then []
    else
      var init := Kept(cleaned[..|cleaned| - 1]);
      var last := cleaned[|cleaned| - 1];
      if Plausible(last) then init + [last] else init
  }

  /** `facts[:5]`: the first five, or all when there are fewer. */
  function Capped(facts: seq<string>): (r: seq<string>)
    ensures |r| == if |facts| < MaxFacts then |facts| else MaxFacts
    ensures r == facts[..|r|]
  {
    if |facts| <= MaxFacts then facts else facts[..MaxFacts]
  }

  /** The facts returned for a service reply: clean every line, keep the
      plausible ones, take the first five. */
  function FactsOf(body: string): (facts: seq<string>)
    ensures |facts| <= MaxFacts
    ensures forall f :: f in facts ==> Plausible(f)
  {
    var kept := Kept(CleanAll(Lines(body)));
    assert forall k :: 0 <= k < |Capped(kept)| ==> Capped(kept)[k] == kept[k];
    Capped(kept)
  }

  /** The positions, in `cleaned`, of the strings that `Kept` keeps: strictly
      increasing, each naming the string it keeps, and a position is among
      them exactly when its string is plausible. So `Kept` drops no
      plausible string, adds nothing, and keeps the order. */
  ghost function KeptSources(cleaned: seq<string>): (src: seq<nat>)
    ensures |src| == |Kept(cleaned)|
    ensures forall k :: 0 <= k < |src| ==> src[k] < |cleaned| && Kept(cleaned)[k] == cleaned[src[k]]
    ensures forall k, l :: 0 <= k < l < |src| ==> src[k] < src[l]
    ensures forall j :: 0 <= j < |cleaned| ==> (j in src <==> Plausible(cleaned[j]))
  {
    if cleaned == [] then []
    else
      var n := |cleaned| - 1;
      var init := KeptSources(cleaned[..n]);
      var kept := Kept(cleaned[..n]);
      assert Kept(cleaned) == if Plausible(cleaned[n]) then kept + [cleaned[n]] else kept;
      assert forall j :: 0 <= j < n ==> cleaned[..n][j] == cleaned[j];
      if Plausible(cleaned[n]) then init + [n] else init
  }

  /** Cleaning one more line adds it to the kept strings exactly when the
      cleaned line is plausible. */
  lemma KeptStep(lines: seq<string>, i: nat)
    requires i < |lines|
    ensures var cleaned := CleanAll(lines);
      Kept(cleaned[..i + 1]) ==
        if Plausible(Clean(lines[i])) then Kept(cleaned[..i]) + [Clean(lines[i])] else Kept(cleaned[..i])
  {
    var cleaned := CleanAll(lines);
    assert cleaned[..i + 1][..i] == cleaned[..i];
    assert cleaned[..i + 1][i] == Clean(lines[i]);
  }

  /** The strings kept from the first `j` are the first ones kept from all. */
  lemma {:induction false} KeptPrefix(cleaned: seq<string>, j: nat)
    requires j <= |cleaned|
    ensures |Kept(cleaned[..j])| <= |Kept(cleaned)|
    ensures Kept(cleaned)[..|Kept(cleaned[..j])|] == Kept(cleaned[..j])
    decreases |cleaned|
  {
    if j < |cleaned| {
      var n := |cleaned| - 1;
      KeptPrefix(cleaned[..n], j);
      assert cleaned[..n][..j] == cleaned[..j];
    } else {
      assert cleaned[..j] == cleaned;
    }
  }

  /** Stopping after the first `j` strings, because they are all there is or
      because five of them are kept, gives the same facts as filtering
      everything and then taking the first five. */
  lemma StopEarly(cleaned: seq<string>, j: nat)
    requires j <= |cleaned|
    requires j == |cleaned| || |Kept(cleaned[..j])| == MaxFacts
    ensures Capped(Kept(cleaned)) == Capped(Kept(cleaned[..j]))
  {
    if j == |cleaned| {
      assert cleaned[..j] == cleaned;
    } else {
      KeptPrefix(cleaned, j);
    }
  }

  /** Peeling only removes characters of `order` from the front: the result
      is a suffix of `s`, and everything removed is a character of `order`. */
  lemma {:induction false} PeelRemovesPrefix(s: string, order: string)
    ensures IsSuffix(Peel(s, order), s)
    ensures forall k :: 0 <= k < |s| - |Peel(s, order)| ==> s[k] in order
  {
    if order != [] {
      var init := order[..|order| - 1];
      var c := order[|order| - 1];
      var mid := Peel(s, init);
      PeelRemovesPrefix(s, init);
      var r := LStrip(mid, {c});
      LStripDrops(mid, {c});
      assert mid == s[|s| - |mid|..];
      forall k | 0 <= k < |s| - |r|
        ensures s[k] in order
      {
        if k < |s| - |mid| {
          assert s[k] in init;
        } else {
          assert s[k] == mid[k - (|s| - |mid|)];
          assert s[k] == c;
        }
      }
      assert s[|s| - |r|..] == mid[|mid| - |r|..];
    }
  }

  /** Peeling in two rounds is peeling with both orders one after the other. */
  lemma {:induction false} PeelAppend(s: string, first: string, second: string)
    ensures Peel(s, first + second) == Peel(Peel(s, first), second)
    decreases |second|
  {
    if second == [] {
      assert first + second == first;
    } else {
      var n := |second| - 1;
      PeelAppend(s, first, second[..n]);
      assert (first + second)[..|first + second| - 1] == first + second[..n];
    }
  }

  /** A string whose first character is not in `order` is left as it is. */
  lemma {:induction false} PeelUntouched(s: string, order: string)
    requires s == [] || s[0] !in order
    ensures Peel(s, order) == s
  {
    if order != [] {
      var n := |order| - 1;
      PeelUntouched(s, order[..n]);
      assert s == [] || s[0] != order[n];
    }
  }

  /** A cleaned line is a suffix of the stripped line, what was cut off is
      made of peel characters, it does not start with a space (the last peel
      removes spaces), and, unless empty, it ends where the stripped line
      ends, so it does not end with whitespace. */
  lemma CleanShape(line: string)
    ensures IsSuffix(Clean(line), Strip(line))
    ensures forall k :: 0 <= k < |Strip(line)| - |Clean(line)| ==> Strip(line)[k] in PeelOrder
    ensures Clean(line) == [] || Clean(line)[0] != ' '
    ensures Clean(line) == [] || Clean(line)[|Clean(line)| - 1] !in Whitespace
  {
    PeelRemovesPrefix(Strip(line), PeelOrder);
    assert PeelOrder[|PeelOrder| - 1] == ' ';
    var c := Clean(line);
    if c != [] {
      var s := Strip(line);
      assert c[|c| - 1] == s[|s| - 1];
    }
  }

  /** When the only character of `order` that applies to the front of `s`
      is `order[i]` (no earlier one matches the first character, no later one
      matches what is left), the whole peel is that single `lstrip`. */
  lemma PeelOnlyAt(s: string, order: string, i: nat)
    requires i < |order|
    requires s == [] || s[0] !in order[..i]
    requires LStrip(s, {order[i]}) == [] || LStrip(s, {order[i]})[0] !in order[i + 1..]
    ensures Peel(s, order) == LStrip(s, {order[i]})
  {
    var before, c, after := order[..i], order[i], order[i + 1..];
    assert order == before + [c] + after;
    PeelAppend(s, before + [c], after);
    PeelAppend(s, before, [c]);
    PeelUntouched(s, before);
    assert [c][..0] == [];
    PeelUntouched(LStrip(s, {c}), after);
  }

  /** A line that starts with a single copy of the peel character
      `PeelOrder[i]`, whose next character no later peel character removes,
      loses exactly that first character when it is cleaned. */
  lemma CleanMarked(line: string, i: nat)
    requires i < |PeelOrder|
    requires |line| >= 2 && line[0] == PeelOrder[i] && line[1] != PeelOrder[i]
    requires line[0] !in PeelOrder[..i] && line[1] !in PeelOrder[i + 1..]
    requires line[0] !in Whitespace && line[|line| - 1] !in Whitespace
    ensures Clean(line) == line[1..]
  {
    assert Strip(line) == line;
    assert LStrip(line[1..], {line[0]}) == line[1..];
    PeelOnlyAt(line, PeelOrder, i);
  }

  /** A line numbered "1" keeps the character after the '1' when that
      character is peeled before '1' (one of the three bullet characters,
      '-' or '0'): only the '1' goes. So "1-..." keeps its dash and
      "10. ..." keeps "0. ". */
  lemma CleanNumberKeepsMarker(c: char, rest: string)
    requires c in PeelOrder[..5]
    requires rest != [] && rest[|rest| - 1] !in Whitespace
    ensures Clean(['1', c] + rest) == [c] + rest
  {
    var line := ['1', c] + rest;
    assert line[0] == '1' && line[1] == c && line[1..] == [c] + rest;
    assert PeelOrder[5] == '1' && '1' !in PeelOrder[..5];
    assert forall k :: 6 <= k < |PeelOrder| ==> PeelOrder[k] !in PeelOrder[..5];
    VisibleNotWhitespace('1');
    CleanMarked(line, 5);
  }

  /** A dashed line "-..." loses its dash when what follows it is not a peel
      character. */
  lemma CleanDash(rest: string)
    requires rest != [] && rest[0] !in PeelOrder && rest[|rest| - 1] !in Whitespace
    ensures Clean("-" + rest) == rest
  {
    var line := "-" + rest;
    assert PeelOrder[3] == '-' && PeelOrder[..3] == "\U{E2}\U{20AC}\U{A2}";
    assert rest[0] !in PeelOrder[4..];
    assert line[1..] == rest;
    VisibleNotWhitespace('-');
    CleanMarked(line, 3);
  }

  /** Cleaning is not idempotent: a numbered dash line such as "1-fact"
      cleans to "-fact", and cleaning that again gives "fact". */
  lemma CleanNotIdempotent(rest: string)
    requires rest != [] && rest[0] !in PeelOrder && rest[|rest| - 1] !in Whitespace
    ensures Clean(Clean("1-" + rest)) != Clean("1-" + rest)
    ensures Clean("1-" + rest) == "-" + rest && Clean(Clean("1-" + rest)) == rest
  {
    assert PeelOrder[..5][3] == '-';
    CleanNumberKeepsMarker('-', rest);
    assert ['1', '-'] + rest == "1-" + rest;
    CleanDash(rest);
  }

  /** The inner `for prefix in ...` loop: strip the line, then `lstrip` each
      peel character in turn. */
  method CleanLine(line: string) returns (cleaned: string)
    ensures cleaned == Clean(line)
  {
    cleaned := Strip(line);
    for i := 0 to |PeelOrder|
      invariant cleaned == Peel(Strip(line), PeelOrder[..i])
    {
      assert PeelOrder[..i + 1][..i] == PeelOrder[..i];
      cleaned := LStrip(cleaned, {PeelOrder[i]});
    }
    assert PeelOrder[..|PeelOrder|] == PeelOrder;
  }

  /** The `for line in lines` loop of `get_facts`: clean each line, keep
      the plausible ones, stop once five are kept, and return `facts[:5]`.
      The result is exactly the first five plausible cleaned lines, in
      order. */
  method FirstFacts(lines: seq<string>) returns (facts: seq<string>)
    ensures facts == Capped(Kept(CleanAll(lines)))
  {
    facts := [];
    var i := 0;
    while i < |lines| && |facts| < MaxFacts
      invariant i <= |lines|
      invariant facts == Kept(CleanAll(lines)[..i]) && |facts| <= MaxFacts
    {
      var cleaned := CleanLine(lines[i]);
      KeptStep(lines, i);
      if 10 < |cleaned| < 120 {
        facts := facts + [cleaned];
      }
      i := i + 1;
    }
    StopEarly(CleanAll(lines), i);
    facts := Capped(facts);
  }

  /** The extraction in `get_facts`: split the stripped reply into lines and
      run the loop over them. The result is `FactsOf(body)`, so it holds at
      most five facts, each of a plausible length. */
  method ExtractFacts(body: string) returns (facts: seq<string>)
    ensures facts == FactsOf(body)
    ensures |facts| <= MaxFacts && forall f :: f in facts ==> Plausible(f)
  {
    var lines := Lines(body);
    facts := FirstFacts(lines);
  }

  /** The `k`-th string kept from `lines` is the cleaned form of line
      `KeptSources(...)[k]`, so it is a suffix of that stripped line, does
      not start with a space and does not end with whitespace. */
  lemma KeptFromLine(lines: seq<string>, k: nat)
    requires k < |Kept(CleanAll(lines))|
    ensures KeptSources(CleanAll(lines))[k] < |lines|
    ensures Kept(CleanAll(lines))[k] == Clean(lines[KeptSources(CleanAll(lines))[k]])
    ensures IsSuffix(Kept(CleanAll(lines))[k], Strip(lines[KeptSources(CleanAll(lines))[k]]))
    ensures Kept(CleanAll(lines))[k][0] != ' '
    ensures Kept(CleanAll(lines))[k][|Kept(CleanAll(lines))[k]| - 1] !in Whitespace
  {
    var cleaned := CleanAll(lines);
    var j := KeptSources(cleaned)[k];
    assert Kept(cleaned)[k] == cleaned[j] == Clean(lines[j]);
    assert Plausible(cleaned[j]) by {
      assert j in KeptSources(cleaned);
    }
    CleanShape(lines[j]);
  }

  /** The `k`-th returned fact is the cleaned form of line
      `KeptSources(...)[k]` of the reply (these positions increase with `k`),
      so it is a suffix of that stripped line, does not start with a space
      and does not end with whitespace. */
  lemma FactFromLine(body: string, k: nat)
    requires k < |FactsOf(body)|
    ensures var lines := Lines(body);
      var j := KeptSources(CleanAll(lines))[k];
      && j < |lines|
      && FactsOf(body)[k] == Clean(lines[j])
      && IsSuffix(FactsOf(body)[k], Strip(lines[j]))
      && FactsOf(body)[k][0] != ' '
      && FactsOf(body)[k][|FactsOf(body)[k]| - 1] !in Whitespace
  {
    var kept := Kept(CleanAll(Lines(body)));
    assert FactsOf(body)[k] == kept[k];
    KeptFromLine(Lines(body), k);
  }

  /** No plausible line is skipped: when fewer than five facts come back,
      every line of the reply whose cleaned form is plausible is among them. */
  lemma FactsComplete(body: string, j: nat)
    requires j < |Lines(body)| && Plausible(Clean(Lines(body)[j]))
    requires |FactsOf(body)| < MaxFacts
    ensures Clean(Lines(body)[j]) in FactsOf(body)
  {
    var cleaned := CleanAll(Lines(body));
    var src := KeptSources(cleaned);
    assert Plausible(cleaned[j]);
    var k :| 0 <= k < |src| && src[k] == j;
    assert FactsOf(body)[k] == cleaned[j];
  }

  /** A line whose cleaned form is plausible is kept in its turn: right
      after the strings kept from the lines before it. */
  lemma KeptInTurn(lines: seq<string>, j: nat)
    requires j < |lines| && Plausible(Clean(lines[j]))
    ensures |Kept(CleanAll(lines)[..j])| < |Kept(CleanAll(lines))|
    ensures Kept(CleanAll(lines))[|Kept(CleanAll(lines)[..j])|] == Clean(lines[j])
  {
    var cleaned := CleanAll(lines);
    var before := Kept(cleaned[..j]);
    KeptStep(lines, j);
    assert Kept(cleaned[..j + 1]) == before + [Clean(lines[j])];
    KeptPrefix(cleaned, j + 1);
    assert Kept(cleaned)[|before|] == Kept(cleaned[..j + 1])[|before|];
  }

  /** A line is returned in its turn: when its cleaned form is plausible and
      fewer than five plausible lines come before it, it is the fact right
      after the facts from those earlier lines. So when five facts come back
      they are the first five plausible lines. */
  lemma FactReturned(body: string, j: nat)
    requires j < |Lines(body)| && Plausible(Clean(Lines(body)[j]))
    requires |Kept(CleanAll(Lines(body))[..j])| < MaxFacts
    ensures |Kept(CleanAll(Lines(body))[..j])| < |FactsOf(body)|
    ensures FactsOf(body)[|Kept(CleanAll(Lines(body))[..j])|] == Clean(Lines(body)[j])
  {
    KeptInTurn(Lines(body), j);
  }
}
