/**
  The attributes converter, `createAttributesTask` and `openAttributes`:
  rewriting a root tree's `.gitattributes` so that tracked suffixes go
  through the LFS filter.  The input is given as its lines (the splitting
  `BufferedReader.readLine` does is not modelled).
*/
module Attributes {
  import opened Objects
  import opened Wrappers
  import opened Lex
  import opened Store
  import opened Text

  /** What follows the pattern in every generated rule. */
  const LfsRuleTail: string := "\tfilter=lfs diff=lfs merge=lfs -crlf"

  /** The rule generated for one tracked suffix. */
  function Rule(suffix: string): string
  {
    "*" + suffix + LfsRuleTail
  }

  /** Distinct suffixes give distinct rules, so the rule set has one rule per distinct suffix. */
  lemma RuleInjective(s1: string, s2: string)
    requires Rule(s1) == Rule(s2)
    ensures s1 == s2
  {
    var r := Rule(s1);
    assert |s1| == |s2|;
    assert s1 == r[1..1 + |s1|];
    assert s2 == r[1..1 + |s2|];
  }

  /** The `TreeSet` of rules built before reading the input. */
  function Rules(suffixes: seq<string>): set<string>
  {
    set s | s in suffixes :: Rule(s)
  }

  function LineSet(lines: seq<string>): set<string>
  {
    set l | l in lines
  }

  /**
    `openAttributes`: the zero id stands for "no prior file" and reads as
    empty without touching the store; any other id must name a blob of the
    source store (`MissingObjectException`, `IncorrectObjectTypeException`).
  */
  function OpenAttributes(src: map<ObjectId, GitObject>, id: ObjectId): (r: Result<seq<byte>, Error>)
    ensures r.Success? <==> id == ZeroId || (id in src && src[id].BlobObject?)
    ensures r.Success? && id == ZeroId ==> r.value == []
    ensures r.Success? && id != ZeroId ==> r.value == src[id].data
    ensures r.Failure? ==> r.error == (if id in src then IncorrectObjectType(id) else MissingObject(id))
  {
    if id == ZeroId then Success([])
    else if id !in src then Failure(MissingObject(id))
    else if !src[id].BlobObject? then Failure(IncorrectObjectType(id))
    else Success(src[id].data)
  }

  /** The lines written to the blob, each followed by '\n'. */
  function Join(lines: seq<string>): string
  {
    if lines == [] then "" else lines[0] + "\n" + Join(lines[1..])
  }

  lemma {:induction false} JoinConcat(a: seq<string>, b: seq<string>)
    ensures Join(a + b) == Join(a) + Join(b)
  {
    if a == [] {
      assert a + b == b;
    } else {
      assert (a + b)[0] == a[0];
      assert (a + b)[1..] == a[1..] + b;
      JoinConcat(a[1..], b);
      assert Join(a + b) == a[0] + "\n" + (Join(a[1..]) + Join(b));
    }
  }

  lemma JoinCons(l: string, rest: seq<string>)
    ensures Join([l] + rest) == l + "\n" + Join(rest)
  {
    assert ([l] + rest)[1..] == rest;
  }

  /**
    The first pass as written: a line that is still a pending rule is taken
    out of the pending set and NOT written; every other line is written.
    Gives the lines written and the rules left pending.
  */
  function CopyPass(lines: seq<string>, pending: set<string>): (r: (seq<string>, set<string>))
    ensures r.1 <= pending
    ensures |r.0| <= |lines|
    ensures forall l :: l in r.0 ==> l in lines && (l in pending ==> l !in r.1)
  {
    if lines == [] then ([], pending)
    else if lines[0] in pending then CopyPass(lines[1..], pending - {lines[0]})
    else
      var (kept, left) := CopyPass(lines[1..], pending);
      ([lines[0]] + kept, left)
  }

  /** The lines of the converted attributes blob: pass one, then the pending rules in ascending order. */
  ghost function AttributeLines(suffixes: seq<string>, lines: seq<string>): seq<string>
  {
    var (kept, left) := CopyPass(lines, Rules(suffixes));
    kept + Ascending(left)
  }

  /** The first loop of `convert`: one rule per suffix, into the `TreeSet`. */
  method BuildRules(suffixes: seq<string>) returns (attributes: set<string>)
    ensures attributes == Rules(suffixes)
    ensures forall r :: r in attributes <==> exists s :: s in suffixes && r == Rule(s)
  {
    attributes := {};
    for i := 0 to |suffixes|
      invariant attributes == set s | s in suffixes[..i] :: Rule(s)
    {
      assert suffixes[..i + 1] == suffixes[..i] + [suffixes[i]];
      attributes := attributes + {Rule(suffixes[i])};
    }
    assert suffixes[..|suffixes|] == suffixes;
  }

  /** The last loop of `convert`: write the rules left, in the `TreeSet`'s ascending order. */
  method AppendAscending(text: string, attributes: set<string>) returns (out: string)
    ensures out == text + Join(Ascending(attributes))
  {
    out := text;
    var rest := attributes;
    while rest != {}
      invariant text + Join(Ascending(attributes)) == out + Join(Ascending(rest))
      decreases |rest|
    {
      LeastExists(rest);
      var least :| IsLeast(least, rest);
      AppendLeastStep(out, rest, least);
      out := out + (least + "\n");
      rest := rest - {least};
    }
  }

  lemma ConcatAssoc<T>(a: seq<T>, b: seq<T>, c: seq<T>)
    ensures a + (b + c) == (a + b) + c
  {
  }

  /** Writing the least pending rule first leaves the rest to write in ascending order. */
  lemma AppendLeastStep(out: string, s: set<string>, least: string)
    requires IsLeast(least, s)
    ensures out + Join(Ascending(s)) == (out + (least + "\n")) + Join(Ascending(s - {least}))
  {
    var t := Join(Ascending(s - {least}));
    var line := least + "\n";
    AscendingUnfold(s, least);
    JoinCons(least, Ascending(s - {least}));
    assert Join(Ascending(s)) == line + t;
    ConcatAssoc(out, line, t);
  }

  /** One step of the first pass on the line at the front of what is left. */
  lemma CopyPassStep(lines: seq<string>, pending: set<string>)
    requires lines != []
    ensures lines[0] in pending ==> CopyPass(lines, pending) == CopyPass(lines[1..], pending - {lines[0]})
    ensures lines[0] !in pending ==>
              CopyPass(lines, pending).0 == [lines[0]] + CopyPass(lines[1..], pending).0 &&
              CopyPass(lines, pending).1 == CopyPass(lines[1..], pending).1
  {
  }

  /** The attributes converter's `convert`, up to the insert: the text of the new blob. */
  method AttributesText(suffixes: seq<string>, lines: seq<string>) returns (text: string)
    ensures text == Join(AttributeLines(suffixes, lines))
  {
    var attributes := BuildRules(suffixes);
    ghost var result := CopyPass(lines, Rules(suffixes));
    text := "";
    ghost var written: seq<string> := [];
    assert lines[0..] == lines;
    for i := 0 to |lines|
      invariant result.0 == written + CopyPass(lines[i..], attributes).0
      invariant result.1 == CopyPass(lines[i..], attributes).1
      invariant text == Join(written)
    {
      var line := lines[i];
      assert lines[i..][0] == line;
      assert lines[i..][1..] == lines[i + 1..];
      CopyPassStep(lines[i..], attributes);
      var removed := line in attributes;
      ghost var before := attributes;
      ghost var next := CopyPass(lines[i + 1..], attributes - {line});
      attributes := attributes - {line};
      if !removed {
        assert attributes == before;
        ConcatAssoc(written, [line], next.0);
        JoinConcat(written, [line]);
        text := text + line + "\n";
        written := written + [line];
      } else {
        assert CopyPass(lines[i..], before) == next;
      }
    }
    assert lines[|lines|..] == [];
    assert result.0 == written && result.1 == attributes;
    assert AttributeLines(suffixes, lines) == written + Ascending(attributes);
    JoinConcat(written, Ascending(attributes));
    text := AppendAscending(text, attributes);
  }

  /**
    What the first pass does, counted: exactly the pending rules that occur
    in the input are consumed, and the lines written are the input less one
    occurrence of each consumed rule.
  */
  lemma {:induction false} CopyPassCounts(lines: seq<string>, pending: set<string>)
    ensures CopyPass(lines, pending).1 == pending - LineSet(lines)
    ensures multiset(CopyPass(lines, pending).0) + multiset(pending * LineSet(lines)) == multiset(lines)
  {
    if lines != [] {
      var l := lines[0];
      var rest := lines[1..];
      assert lines == [l] + rest;
      assert LineSet(lines) == {l} + LineSet(rest);
      if l in pending {
        CopyPassCounts(rest, pending - {l});
        var a := (pending - {l}) * LineSet(rest);
        assert pending * LineSet(lines) == a + {l};
        assert l !in a;
        assert multiset(a + {l}) == multiset(a) + multiset{l};
      } else {
        CopyPassCounts(rest, pending);
        assert pending * LineSet(lines) == pending * LineSet(rest);
      }
    }
  }

  /** Whether pass one writes the line at index `j`: all but the first occurrence of a pending rule. */
  predicate Writes(lines: seq<string>, pending: set<string>, j: nat)
    requires j < |lines|
  {
    !(lines[j] in pending && lines[j] !in lines[..j])
  }

  /** The lines from index `k` on that pass one writes, in input order. */
  function WrittenFrom(lines: seq<string>, pending: set<string>, k: nat): seq<string>
    requires k <= |lines|
    decreases |lines| - k
  {
    if k == |lines| then []
    else (if Writes(lines, pending, k) then [lines[k]] else []) + WrittenFrom(lines, pending, k + 1)
  }

  /**
    Pass one writes the input lines in their order, leaving out exactly the
    first occurrence of each pending rule.
  */
  lemma CopyPassKeepsOrder(lines: seq<string>, pending: set<string>)
    ensures CopyPass(lines, pending).0 == WrittenFrom(lines, pending, 0)
  {
    CopyPassFrom(lines, pending, 0);
    assert lines[0..] == lines && lines[..0] == [];
    assert pending - LineSet([]) == pending;
  }

  lemma {:induction false} CopyPassFrom(lines: seq<string>, pending: set<string>, k: nat)
    requires k <= |lines|
    ensures CopyPass(lines[k..], pending - LineSet(lines[..k])).0 == WrittenFrom(lines, pending, k)
    decreases |lines| - k
  {
    if k < |lines| {
      var p := pending - LineSet(lines[..k]);
      var l := lines[k];
      assert lines[k..][0] == l && lines[k..][1..] == lines[k + 1..];
      assert lines[..k + 1] == lines[..k] + [l];
      assert LineSet(lines[..k + 1]) == LineSet(lines[..k]) + {l};
      CopyPassStep(lines[k..], p);
      CopyPassFrom(lines, pending, k + 1);
      if l in p {
        assert p - {l} == pending - LineSet(lines[..k + 1]);
      } else {
        assert p == pending - LineSet(lines[..k + 1]);
      }
    }
  }

  /** With no tracked suffixes the output is the input, line for line. */
  lemma {:induction false} NoSuffixesCopiesInput(lines: seq<string>)
    ensures AttributeLines([], lines) == lines
  {
    assert Rules([]) == {};
    CopyPassEmpty(lines);
  }

  lemma {:induction false} CopyPassEmpty(lines: seq<string>)
    ensures CopyPass(lines, {}) == (lines, {})
  {
    if lines != [] {
      CopyPassEmpty(lines[1..]);
      assert lines == [lines[0]] + lines[1..];
    }
  }

  /** Lines that are not generated rules are all written, as often as they occur. */
  lemma OtherLinesKept(suffixes: seq<string>, lines: seq<string>, l: string)
    requires l !in Rules(suffixes)
    ensures multiset(AttributeLines(suffixes, lines))[l] == multiset(lines)[l]
  {
    var (kept, left) := CopyPass(lines, Rules(suffixes));
    CopyPassCounts(lines, Rules(suffixes));
    assert l !in left;
    assert multiset(Ascending(left))[l] == 0;
    assert multiset(Rules(suffixes) * LineSet(lines))[l] == 0;
    assert multiset(kept + Ascending(left)) == multiset(kept) + multiset(Ascending(left));
  }

  /** A rule for a tracked suffix that the input lacks is appended exactly once. */
  lemma MissingRuleAddedOnce(suffixes: seq<string>, lines: seq<string>, s: string)
    requires s in suffixes && Rule(s) !in lines
    ensures multiset(AttributeLines(suffixes, lines))[Rule(s)] == 1
  {
    var (kept, left) := CopyPass(lines, Rules(suffixes));
    CopyPassCounts(lines, Rules(suffixes));
    assert Rule(s) !in LineSet(lines);
    assert multiset(lines)[Rule(s)] == 0;
    assert multiset(kept)[Rule(s)] == 0;
    assert Rule(s) in left;
    AscendingCount(left, Rule(s));
    assert multiset(kept + Ascending(left)) == multiset(kept) + multiset(Ascending(left));
  }

  /** A set's ascending sequence holds each member exactly once. */
  lemma AscendingCount(s: set<string>, x: string)
    ensures multiset(Ascending(s))[x] == if x in s then 1 else 0
  {
    DistinctCount(Ascending(s), x);
  }

  lemma {:induction false} DistinctCount(r: seq<string>, x: string)
    requires forall i, j :: 0 <= i < j < |r| ==> r[i] != r[j]
    ensures multiset(r)[x] == if x in r then 1 else 0
  {
    if r != [] {
      DistinctCount(r[1..], x);
      assert r == [r[0]] + r[1..];
      assert r[0] !in r[1..];
    }
  }

  /**
    The defect of the first pass: an input that already holds the rule for a
    tracked suffix once comes out with no rule for it at all.
  */
  lemma PresentRuleIsDropped(suffixes: seq<string>, lines: seq<string>, s: string)
    requires s in suffixes && multiset(lines)[Rule(s)] == 1
    ensures Rule(s) !in AttributeLines(suffixes, lines)
  {
    CopyPassCounts(lines, Rules(suffixes));
    assert Rule(s) in Rules(suffixes) * LineSet(lines);
  }

  /** The smallest instance: the up-to-date attributes file for `.bin` is rewritten to empty text. */
  lemma PresentRuleExample()
    ensures Join(AttributeLines([".bin"], [Rule(".bin")])) == ""
  {
    var r := Rule(".bin");
    assert forall s :: s in [".bin"] <==> s == ".bin";
    assert Rules([".bin"]) == {r};
    CopyPassStep([r], {r});
    assert [r][1..] == [];
    assert CopyPass([r], {r}) == CopyPass([], {}) == ([], {});
    assert Ascending({}) == [];
  }

  /**
    The evidently intended conversion: every input line is written, a line
    equal to a pending rule merely satisfies it, and the rules never seen are
    appended in ascending order.
  */
  ghost function CorrectedAttributeLines(suffixes: seq<string>, lines: seq<string>): seq<string>
  {
    lines + Ascending(Rules(suffixes) - LineSet(lines))
  }

  /** The corrected converter's text, written with the source's loops. */
  method CorrectedAttributesText(suffixes: seq<string>, lines: seq<string>) returns (text: string)
    ensures text == Join(CorrectedAttributeLines(suffixes, lines))
  {
    var attributes := BuildRules(suffixes);
    text := "";
    for i := 0 to |lines|
      invariant attributes == Rules(suffixes) - LineSet(lines[..i])
      invariant text == Join(lines[..i])
    {
      assert lines[..i + 1] == lines[..i] + [lines[i]];
      assert LineSet(lines[..i + 1]) == LineSet(lines[..i]) + {lines[i]};
      JoinConcat(lines[..i], [lines[i]]);
      attributes := attributes - {lines[i]};
      text := text + lines[i] + "\n";
    }
    assert lines[..|lines|] == lines;
    JoinConcat(lines, Ascending(attributes));
    text := AppendAscending(text, attributes);
  }

  /** Corrected: every tracked suffix has its rule in the output. */
  lemma CorrectedCoversEverySuffix(suffixes: seq<string>, lines: seq<string>, s: string)
    requires s in suffixes
    ensures Rule(s) in CorrectedAttributeLines(suffixes, lines)
  {
    if Rule(s) !in lines {
      assert Rule(s) in Rules(suffixes) - LineSet(lines);
    }
  }

  /** Corrected: the input is kept whole, and only the missing rules are added, once each. */
  lemma CorrectedAddsOnlyMissingRules(suffixes: seq<string>, lines: seq<string>, l: string)
    ensures var out := CorrectedAttributeLines(suffixes, lines);
            out[..|lines|] == lines &&
            multiset(out)[l] == multiset(lines)[l] + (if l in Rules(suffixes) && l !in lines then 1 else 0)
  {
    var left := Rules(suffixes) - LineSet(lines);
    var out := lines + Ascending(left);
    assert out[..|lines|] == lines;
    AscendingCount(left, l);
    assert multiset(out) == multiset(lines) + multiset(Ascending(left));
    assert l in left <==> l in Rules(suffixes) && l !in lines;
  }

  /** Corrected: converting the converted lines again changes nothing. */
  lemma CorrectedIdempotent(suffixes: seq<string>, lines: seq<string>)
    ensures CorrectedAttributeLines(suffixes, CorrectedAttributeLines(suffixes, lines))
            == CorrectedAttributeLines(suffixes, lines)
  {
    var out := CorrectedAttributeLines(suffixes, lines);
    forall r | r in Rules(suffixes)
      ensures r in LineSet(out)
    {
      var s :| s in suffixes && r == Rule(s);
      CorrectedCoversEverySuffix(suffixes, lines, s);
    }
    assert Rules(suffixes) - LineSet(out) == {};
  }

  /**
    The attributes converter's `convert`: read the prior file, rewrite it as
    written (`AttributesText`), and insert the UTF-8 bytes as a blob.
    `readLines` stands for decoding the bytes and splitting them with
    `BufferedReader.readLine`, which reads no line from an empty stream.
  */
  method ConvertAttributes(dst: Repository, src: map<ObjectId, GitObject>, id: ObjectId, suffixes: seq<string>,
                           readLines: seq<byte> -> seq<string>)
    returns (r: Result<ObjectId, Error>)
    requires readLines([]) == []
    modifies dst
    ensures id == ZeroId ==>
              r.Success? && dst.objects == old(dst.objects)[r.value := BlobObject(Utf8(Join(Ascending(Rules(suffixes)))))]
    ensures OpenAttributes(src, id).Failure? ==> r == Failure(OpenAttributes(src, id).error) && unchanged(dst)
    ensures OpenAttributes(src, id).Success? ==>
              var blob := BlobObject(Utf8(Join(AttributeLines(suffixes, readLines(OpenAttributes(src, id).value)))));
              r == Success(dst.hashOf(blob)) &&
              dst.objects == old(dst.objects)[dst.hashOf(blob) := blob] && dst.files == old(dst.files)
  {
    NewFileHoldsAllRules(src, suffixes, readLines);
    var input := OpenAttributes(src, id);
    if input.Failure? {
      return Failure(input.error);
    }
    var text := AttributesText(suffixes, readLines(input.value));
    var newId := dst.Insert(BlobObject(Utf8(text)));
    r := Success(newId);
  }

  /** The corrected converter's `convert`: as `ConvertAttributes`, with the corrected first pass. */
  method CorrectedConvertAttributes(dst: Repository, src: map<ObjectId, GitObject>, id: ObjectId, suffixes: seq<string>,
                                    readLines: seq<byte> -> seq<string>)
    returns (r: Result<ObjectId, Error>)
    requires readLines([]) == []
    modifies dst
    ensures id == ZeroId ==>
              r.Success? && dst.objects == old(dst.objects)[r.value := BlobObject(Utf8(Join(Ascending(Rules(suffixes)))))]
    ensures OpenAttributes(src, id).Failure? ==> r == Failure(OpenAttributes(src, id).error) && unchanged(dst)
    ensures OpenAttributes(src, id).Success? ==>
              var blob := BlobObject(Utf8(Join(CorrectedAttributeLines(suffixes, readLines(OpenAttributes(src, id).value)))));
              r == Success(dst.hashOf(blob)) &&
              dst.objects == old(dst.objects)[dst.hashOf(blob) := blob] && dst.files == old(dst.files)
  {
    NewFileHoldsAllRules(src, suffixes, readLines);
    var input := OpenAttributes(src, id);
    if input.Failure? {
      return Failure(input.error);
    }
    var text := CorrectedAttributesText(suffixes, readLines(input.value));
    var newId := dst.Insert(BlobObject(Utf8(text)));
    r := Success(newId);
  }

  /**
    With no prior file (the zero id) the stream is empty, no line is read,
    and the new file holds every rule once, in ascending order.
  */
  lemma NewFileHoldsAllRules(src: map<ObjectId, GitObject>, suffixes: seq<string>, readLines: seq<byte> -> seq<string>)
    requires readLines([]) == []
    ensures OpenAttributes(src, ZeroId) == Success([])
    ensures AttributeLines(suffixes, readLines(OpenAttributes(src, ZeroId).value)) == Ascending(Rules(suffixes))
    ensures CorrectedAttributeLines(suffixes, readLines(OpenAttributes(src, ZeroId).value)) == Ascending(Rules(suffixes))
  {
    var none: seq<string> := [];
    var rules := Rules(suffixes);
    assert CopyPass(none, rules) == (none, rules);
    assert LineSet(none) == {};
    assert rules - LineSet(none) == rules;
    assert none + Ascending(rules) == Ascending(rules);
  }
}
