/** The objects of the SCFG active chart: a SymbolBind that a rule match
    grows one right-hand-side position at a time, the chart entry that holds
    it, and the per-sentence chart of entries. The memory pool they are
    allocated from is modelled as ordinary allocation. */
module SCFG {
  import opened Binding

  /** A rule's right-hand side as bound so far, left to right, with a
      running count of its non-terminal positions. */
  class SymbolBind {
    var coll: seq<SymbolBindElement>
    var numNT: nat

    /** Every element keeps the binding invariant and numNT counts the
        non-terminal elements. */
    ghost predicate Valid()
      reads this
    {
      AllValid(coll) && numNT == CountNT(coll)
    }

    constructor ()
      ensures Valid()
      ensures coll == [] && numNT == 0
    {
      coll := [];
      numNT := 0;
    }

    /** Binds the next position. The span is accepted and not stored. */
    method Add(range: Range, word: Word, hypos: Option<Hypotheses>)
      requires Valid()
      requires BindingAllowed(word, hypos)
      modifies this
      ensures Valid()
      ensures coll == old(coll) + [MakeElement(word, hypos)]
      ensures numNT == old(numNT) + (if word.isNonTerminal then 1 else 0)
    {
      var ele := MakeElement(word, hypos);
      coll := coll + [ele];
      assert coll[..|coll| - 1] == old(coll);
      if word.isNonTerminal {
        numNT := numNT + 1;
      }
    }

    /** The non-terminal elements, in right-hand-side order; there are
        exactly numNT of them and each carries its derivation set. */
    method GetNTElements() returns (ret: seq<SymbolBindElement>)
      requires Valid()
      ensures ret == NTElements(coll)
      ensures |ret| == numNT
      ensures forall k :: 0 <= k < |ret| ==> ret[k].word.isNonTerminal && ret[k].hypos.Some?
    {
      ret := [];
      for i := 0 to |coll|
        invariant ret == NTElements(coll[..i])
      {
        var ele := coll[i];
        assert coll[..i + 1] == coll[..i] + [ele];
        NTElementsSnoc(coll[..i], ele);
        if ele.word.isNonTerminal {
          ret := ret + [ele];
        }
      }
      assert coll[..|coll|] == coll;
      NTElementsLength(coll);
      NTElementsAreNonTerminals(coll);
    }

    /** The diagnostic text: for each element in order, "(", the span of the
        first derivation of a non-terminal's set, the symbol's text, ") ". */
    method Debug(rangeText: Range -> string) returns (out: string)
      requires Valid()
      requires AllRenderable(coll)
      ensures out == Render(coll, rangeText)
    {
      out := "";
      for i := 0 to |coll|
        invariant out == Render(coll[..i], rangeText)
      {
        var ele := coll[i];
        assert coll[..i + 1] == coll[..i] + [ele];
        assert Render([ele], rangeText) == Fragment(ele, rangeText) + Render([], rangeText);
        RenderAppend(coll[..i], [ele], rangeText);
        out := out + "(";
        if ele.word.isNonTerminal {
          var hypo := ele.hypos.value.items[0];
          out := out + rangeText(hypo.range);
        }
        out := out + ele.word.text;
        out := out + ") ";
      }
      assert coll[..|coll|] == coll;
    }
  }

  /** One stored binding attempt. */
  class ActiveChartEntry {
    const symbolBind: SymbolBind

    constructor ()
      ensures fresh(symbolBind)
      ensures symbolBind.Valid() && symbolBind.coll == [] && symbolBind.numNT == 0
    {
      symbolBind := new SymbolBind();
    }
  }

  /** The per-sentence collection of chart entries. */
  class ActiveChart {
    var entries: seq<ActiveChartEntry>

    constructor ()
      ensures entries == []
    {
      entries := [];
    }
  }

  /** The rule X -> "a" Y "b" matched against four tokens where Y's set
      covers [1,3): one non-terminal position, selected alone, and the text
      "(a) (" + span of [1,3) + "Y) (b) ". */
  method MatchExample(rangeText: Range -> string)
    returns (numNT: nat, nts: seq<SymbolBindElement>, text: string)
    ensures numNT == 1 && |nts| == 1
    ensures nts[0].word.text == "Y" && nts[0].hypos == Some(Hypotheses(2, [Hypothesis(Range(1, 3))]))
    ensures text == "(a) (" + rangeText(Range(1, 3)) + "Y) (b) "
  {
    var a := Word(16, false, "a");
    var y := Word(32, true, "Y");
    var b := Word(48, false, "b");
    var ySet := Hypotheses(2, [Hypothesis(Range(1, 3))]);
    var entry := new ActiveChartEntry();
    var bind := entry.symbolBind;
    bind.Add(Range(0, 1), a, None);
    bind.Add(Range(1, 3), y, Some(ySet));
    bind.Add(Range(3, 4), b, None);
    numNT := bind.numNT;
    nts := bind.GetNTElements();
    assert bind.coll == [MakeElement(a, None), MakeElement(y, Some(ySet)), MakeElement(b, None)];
    text := bind.Debug(rangeText);
    var s := bind.coll;
    assert s[2..] == [s[2]] && s[2..][1..] == [];
    assert Render(s[2..], rangeText) == Fragment(s[2], rangeText);
    assert s[1..][1..] == s[2..];
    assert Render(s[1..], rangeText) == Fragment(s[1], rangeText) + Fragment(s[2], rangeText);
  }
}
