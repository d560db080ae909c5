/**
 * Construction of the character-to-code table from the whitespace-separated
 * tokens of the definition file (`loadMorseCharacters`): tokens are read in
 * pairs `(character, code)` and each pair puts `character[0] -> code` into
 * the table, so a later definition of a character replaces an earlier one.
 */
module SymbolTable {
  import opened Wrappers
  import opened JavaStrings

  /** The lookup table: `Map.put`/`Map.get` semantics over characters. */
  type Table = map<char, string>

  /** One pair of the definition file, keyed by the first character of its first token. */
  datatype Definition = Definition(character: char, code: string)

  /** The uncaught exception of `in.next()` when a character has no code after it. */
  datatype LoadError = NoSuchElement

  /** A Scanner token: a non-empty run of non-whitespace characters. */
  predicate IsToken(t: string)
  {
    |t| > 0 && forall i :: 0 <= i < |t| ==> !IsJavaWhitespace(t[i])
  }

  /** What `Scanner.next()` can deliver: tokens only. */
  predicate AreTokens(tokens: seq<string>)
  {
    forall i :: 0 <= i < |tokens| ==> IsToken(tokens[i])
  }

  /** The tokens grouped into consecutive pairs; `charAt(0)` picks the key. */
  function Pairs(tokens: seq<string>): (defs: seq<Definition>)
    requires |tokens| % 2 == 0 && AreTokens(tokens)
    ensures 2 * |defs| == |tokens|
  {
    if tokens == [] then []
    else
      var n := |tokens|;
      Pairs(tokens[..n - 2]) + [Definition(tokens[n - 2][0], tokens[n - 1])]
  }

  /** The table after putting every definition in order. */
  function BuildTable(defs: seq<Definition>): Table
  {
    if defs == [] then map[]
    else
      var last := defs[|defs| - 1];
      BuildTable(defs[..|defs| - 1])[last.character := last.code]
  }

  /** Definition j is made of tokens 2j and 2j + 1; only the first character of the first counts. */
  lemma {:induction false} PairsAt(tokens: seq<string>, j: nat)
    requires |tokens| % 2 == 0 && AreTokens(tokens)
    requires j < |tokens| / 2
    ensures |Pairs(tokens)| == |tokens| / 2
    ensures Pairs(tokens)[j] == Definition(tokens[2 * j][0], tokens[2 * j + 1])
  {
    var n := |tokens|;
    var init := tokens[..n - 2];
    if 2 * j + 2 < n {
      PairsAt(init, j);
    }
  }

  /** Reading one more pair appends one definition. */
  lemma PairsStep(tokens: seq<string>, i: nat)
    requires i % 2 == 0 && i + 2 <= |tokens| && AreTokens(tokens)
    ensures Pairs(tokens[..i + 2]) == Pairs(tokens[..i]) + [Definition(tokens[i][0], tokens[i + 1])]
  {
    assert tokens[..i + 2][..i] == tokens[..i];
  }

  /**
   * Reading the definition file: a missing file (`None`) leaves the table
   * empty; an odd number of tokens makes the second `in.next()` throw;
   * otherwise the table is built from the pairs in file order.
   */
  method LoadMorseCharacters(source: Option<seq<string>>) returns (r: Result<Table, LoadError>)
    requires source.Some? ==> AreTokens(source.value)
    ensures source.None? ==> r == Ok(map[])
    ensures source.Some? && |source.value| % 2 == 1 ==> r == Err(NoSuchElement)
    ensures source.Some? && |source.value| % 2 == 0 ==> r == Ok(BuildTable(Pairs(source.value)))
  {
    if source.None? {
      return Ok(map[]);
    }
    var tokens := source.value;
    var table: Table := map[];
    var i := 0;
    while i < |tokens|
      invariant 0 <= i <= |tokens| && i % 2 == 0
      invariant table == BuildTable(Pairs(tokens[..i]))
    {
      var character := tokens[i];
      if i + 1 == |tokens| {
        return Err(NoSuchElement);
      }
      var morse := tokens[i + 1];
      PairsStep(tokens, i);
      table := table[character[0] := morse];
      i := i + 2;
    }
    assert tokens[..i] == tokens;
    return Ok(table);
  }

  /**
   * Last write wins: a character is in the table exactly when some definition
   * is for it, and its code is that of the last such definition.
   */
  lemma {:induction false} BuildTableLastWins(defs: seq<Definition>, k: char)
    ensures k in BuildTable(defs) <==> exists j :: 0 <= j < |defs| && defs[j].character == k
    ensures k in BuildTable(defs) ==>
              exists j :: && 0 <= j < |defs| && defs[j].character == k
                          && BuildTable(defs)[k] == defs[j].code
                          && forall j' :: j < j' < |defs| ==> defs[j'].character != k
  {
    if defs != [] {
      var n := |defs| - 1;
      var init := defs[..n];
      BuildTableLastWins(init, k);
      if defs[n].character == k {
        assert BuildTable(defs)[k] == defs[n].code;
      } else {
        assert k in BuildTable(defs) <==> k in BuildTable(init);
        if k in BuildTable(init) {
          var j :| && 0 <= j < |init| && init[j].character == k
                   && BuildTable(init)[k] == init[j].code
                   && forall j' :: j < j' < |init| ==> init[j'].character != k;
          assert defs[j] == init[j];
          assert forall j' :: j < j' < |defs| ==> defs[j'].character != k by {
            forall j' | j < j' < |defs| ensures defs[j'].character != k {
              if j' < n { assert defs[j'] == init[j']; }
            }
          }
        }
        if exists j :: 0 <= j < |defs| && defs[j].character == k {
          var j :| 0 <= j < |defs| && defs[j].character == k;
          assert j < n && init[j] == defs[j];
        }
      }
    }
  }

  /** Two definitions of one character never disagree on its code. */
  predicate Consistent(defs: seq<Definition>)
  {
    forall i, j :: 0 <= i < |defs| && 0 <= j < |defs| && defs[i].character == defs[j].character ==>
      defs[i].code == defs[j].code
  }

  /**
   * The order of the definitions does not matter when no character is given
   * two different codes: any rearrangement of the same definitions (a
   * permutation in particular) builds the same table.
   */
  lemma BuildTableReordered(p: seq<Definition>, q: seq<Definition>)
    requires Consistent(p)
    requires forall d :: d in p <==> d in q
    ensures BuildTable(p) == BuildTable(q)
  {
    var tp, tq := BuildTable(p), BuildTable(q);
    forall k ensures k in tp <==> k in tq {
      BuildTableLastWins(p, k);
      BuildTableLastWins(q, k);
      if exists j :: 0 <= j < |p| && p[j].character == k {
        var j :| 0 <= j < |p| && p[j].character == k;
        assert p[j] in q;
      }
      if exists j :: 0 <= j < |q| && q[j].character == k {
        var j :| 0 <= j < |q| && q[j].character == k;
        assert q[j] in p;
      }
    }
    forall k | k in tp ensures tp[k] == tq[k] {
      BuildTableLastWins(p, k);
      BuildTableLastWins(q, k);
      var i :| 0 <= i < |p| && p[i].character == k && tp[k] == p[i].code;
      var j :| 0 <= j < |q| && q[j].character == k && tq[k] == q[j].code;
      assert q[j] in p;
    }
  }

  /** A character defined twice keeps the code given last. */
  lemma DuplicateDefinitionKeepsLast()
    ensures BuildTable([Definition('A', ".-"), Definition('A', "-")]) == map['A' := "-"]
  {
    var defs := [Definition('A', ".-"), Definition('A', "-")];
    assert defs[..1] == [Definition('A', ".-")];
    assert [Definition('A', ".-")][..0] == [];
  }

  /** Codes read from the file are Scanner tokens too: never empty, never containing a space. */
  lemma LoadedCodesAreTokens(tokens: seq<string>)
    requires |tokens| % 2 == 0 && AreTokens(tokens)
    ensures forall c | c in BuildTable(Pairs(tokens)) :: IsToken(BuildTable(Pairs(tokens))[c])
  {
    var defs := Pairs(tokens);
    forall c | c in BuildTable(defs) ensures IsToken(BuildTable(defs)[c]) {
      BuildTableLastWins(defs, c);
      var j :| 0 <= j < |defs| && defs[j].character == c && BuildTable(defs)[c] == defs[j].code;
      PairsAt(tokens, j);
    }
  }
}
