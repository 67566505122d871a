/** SimpleVocabTokenizer of the Python runtime: the fallback dictionary
    tokenizer. The vocabulary file is taken as already parsed: the JSON
    object arrives as its items in file order, which is the order of the
    Python dict. */
module VocabTokenizer {
  import opened Wrappers
  import opened Strings

  /** The default `unk_token` and `pad_token`. */
  const EndOfText: string := "<|endoftext|>"

  /** The items of a dict: its keys are distinct. */
  type Items = seq<(string, int)>

  predicate DistinctKeys(items: Items) {
    forall i, j :: 0 <= i < j < |items| ==> items[i].0 != items[j].0
  }

  /** The dict `token_to_id` whose items are `items`. */
  function ItemsToMap(items: Items): map<string, int> {
    if items == [] then map[]
    else ItemsToMap(items[..|items| - 1])[items[|items| - 1].0 := items[|items| - 1].1]
  }

  /** `{v: k for k, v in items}`: a later key wins an id they share. */
  function InvertItems(items: Items): map<int, string> {
    if items == [] then map[]
    else InvertItems(items[..|items| - 1])[items[|items| - 1].1 := items[|items| - 1].0]
  }

  /** `max` over the values of the dict whose items are `items`. */
  function MaxId(items: Items): (m: int)
    requires items != []
    ensures exists i :: 0 <= i < |items| && items[i].1 == m
    ensures forall i :: 0 <= i < |items| ==> items[i].1 <= m
  {
    var last := items[|items| - 1].1;
    if |items| == 1 then last
    else
      var m := MaxId(items[..|items| - 1]);
      assert forall i :: 0 <= i < |items| - 1 ==> items[..|items| - 1][i] == items[i];
      if m < last then last else m
  }

  /** `idToToken` undoes `tokenToId` on every id it holds: its ids are
      exactly the values of `tokenToId`, and each names a token with
      that id. */
  predicate Inverse(tokenToId: map<string, int>, idToToken: map<int, string>) {
    && idToToken.Keys == tokenToId.Values
    && forall id :: id in idToToken ==> idToToken[id] in tokenToId && tokenToId[idToToken[id]] == id
  }

  /** No two tokens share an id. */
  predicate Injective(tokenToId: map<string, int>) {
    forall a, b :: a in tokenToId && b in tokenToId && a != b ==> tokenToId[a] != tokenToId[b]
  }

  datatype VocabError = EmptyVocabulary

  datatype SimpleVocabTokenizer = SimpleVocabTokenizer(
    tokenToId: map<string, int>,
    idToToken: map<int, string>,
    unkToken: string,
    padToken: string)

  /** What construction establishes. */
  predicate Valid(tok: SimpleVocabTokenizer) {
    && tok.unkToken in tok.tokenToId
    && tok.padToken in tok.tokenToId
    && Inverse(tok.tokenToId, tok.idToToken)
  }

  // ---------------------------------------------------------------- maps

  lemma {:induction false} ItemsToMapKeys(items: Items)
    ensures forall k :: k in ItemsToMap(items) <==> exists i :: 0 <= i < |items| && items[i].0 == k
  {
    if items != [] {
      var p := items[..|items| - 1];
      ItemsToMapKeys(p);
      forall k ensures k in ItemsToMap(items) <==> exists i :: 0 <= i < |items| && items[i].0 == k {
        if k in ItemsToMap(p) {
          var i :| 0 <= i < |p| && p[i].0 == k;
          assert items[i].0 == k;
        }
        if exists i :: 0 <= i < |items| && items[i].0 == k {
          var i :| 0 <= i < |items| && items[i].0 == k;
          if i < |p| { assert p[i].0 == k; }
        }
      }
    }
  }

  /** With distinct keys every item is an entry of the dict. */
  lemma {:induction false} ItemsToMapEntries(items: Items)
    requires DistinctKeys(items)
    ensures forall i :: 0 <= i < |items| ==> items[i].0 in ItemsToMap(items) && ItemsToMap(items)[items[i].0] == items[i].1
  {
    if items != [] {
      var p := items[..|items| - 1];
      ItemsToMapEntries(p);
      forall i | 0 <= i < |items|
        ensures items[i].0 in ItemsToMap(items) && ItemsToMap(items)[items[i].0] == items[i].1
      {
        if i < |p| { assert p[i] == items[i]; }
      }
    }
  }

  /** Every value of the dict is the id of one of its items. */
  lemma {:induction false} ItemsToMapValues(items: Items)
    ensures forall k :: k in ItemsToMap(items) ==> exists i :: 0 <= i < |items| && items[i].1 == ItemsToMap(items)[k]
  {
    if items != [] {
      var p := items[..|items| - 1];
      ItemsToMapValues(p);
      forall k | k in ItemsToMap(items)
        ensures exists i :: 0 <= i < |items| && items[i].1 == ItemsToMap(items)[k]
      {
        if k != items[|items| - 1].0 {
          assert k in ItemsToMap(p) && ItemsToMap(items)[k] == ItemsToMap(p)[k];
          var i :| 0 <= i < |p| && p[i].1 == ItemsToMap(p)[k];
          assert items[i].1 == ItemsToMap(items)[k];
        }
      }
    }
  }

  lemma ValuesOfUpdate(m: map<string, int>, k: string, v: int)
    requires k !in m
    ensures m[k := v].Values == m.Values + {v}
  {
    forall x | x in m.Values ensures x in m[k := v].Values {
      var j :| j in m && m[j] == x;
      assert m[k := v][j] == x;
    }
    assert m[k := v][k] == v;
  }

  /** Adding a new token keeps the tables inverse, whether or not its id is
      already taken. */
  lemma InverseExtend(m: map<string, int>, inv: map<int, string>, k: string, v: int)
    requires k !in m && Inverse(m, inv)
    ensures Inverse(m[k := v], inv[v := k])
  {
    ValuesOfUpdate(m, k, v);
  }

  /** Adding a new token with a fresh id keeps the ids distinct. */
  lemma InjectiveExtend(m: map<string, int>, k: string, v: int)
    requires k !in m && v !in m.Values && Injective(m)
    ensures Injective(m[k := v])
  {
    forall a | a in m ensures m[a] != v {
      assert m[a] in m.Values;
    }
  }

  /** The comprehension builds the inverse table. */
  lemma {:induction false} InvertItemsInverse(items: Items)
    requires DistinctKeys(items)
    ensures Inverse(ItemsToMap(items), InvertItems(items))
  {
    if items != [] {
      var p := items[..|items| - 1];
      var last := items[|items| - 1];
      InvertItemsInverse(p);
      ItemsToMapKeys(p);
      assert forall i :: 0 <= i < |p| ==> p[i].0 == items[i].0 != last.0;
      InverseExtend(ItemsToMap(p), InvertItems(p), last.0, last.1);
    }
  }

  /** With distinct ids the inverse table recovers every token. */
  lemma InverseOfInjective(m: map<string, int>, inv: map<int, string>)
    requires Inverse(m, inv) && Injective(m)
    ensures forall k :: k in m ==> m[k] in inv && inv[m[k]] == k
  {
    forall k | k in m ensures m[k] in inv && inv[m[k]] == k {
      var id := m[k];
      assert id in m.Values;
      assert id in inv.Keys;
      var j := inv[id];
      assert j in m && m[j] == id;
    }
  }

  /** A token added with `max + 1` gets an id no dict item has. */
  lemma MaxIdFresh(items: Items)
    requires items != []
    ensures MaxId(items) + 1 !in ItemsToMap(items).Values
    ensures forall k :: k in ItemsToMap(items) ==> ItemsToMap(items)[k] < MaxId(items) + 1
  {
    ItemsToMapValues(items);
  }

  // -------------------------------------------------------- construction

  /** The tables after one pass of the special-token loop for token `t`:
      unchanged when `t` is a key; otherwise `t` gets `max + 1`, and
      `max` of an empty dict is the failure. */
  function AddSpecial(items: Items, idToToken: map<int, string>, t: string): Result<(Items, map<int, string>), VocabError> {
    if t in ItemsToMap(items) then Success((items, idToToken))
    else if items == [] then Failure(EmptyVocabulary)
    else
      var nid := MaxId(items) + 1;
      Success((items + [(t, nid)], idToToken[nid := t]))
  }

  /** The special-token loop over `specials`, in order. */
  function AddSpecials(items: Items, idToToken: map<int, string>, specials: seq<string>): Result<(Items, map<int, string>), VocabError> {
    if specials == [] then Success((items, idToToken))
    else
      match AddSpecials(items, idToToken, specials[..|specials| - 1])
      case Failure(e) => Failure(e)
      case Success(tables) => AddSpecial(tables.0, tables.1, specials[|specials| - 1])
  }

  /** The loop over the two special tokens, unrolled. */
  lemma AddSpecialsPair(items: Items, idToToken: map<int, string>, a: string, b: string)
    ensures AddSpecials(items, idToToken, [a]) == AddSpecial(items, idToToken, a)
    ensures AddSpecials(items, idToToken, [a, b])
      == match AddSpecial(items, idToToken, a)
         case Failure(e) => Failure(e)
         case Success(tables) => AddSpecial(tables.0, tables.1, b)
  {
    assert [a][..0] == [];
    assert [a, b][..1] == [a];
  }

  /** `SimpleVocabTokenizer(...)` once the vocabulary is loaded. */
  function Built(loaded: Items, unkToken: string, padToken: string): Result<SimpleVocabTokenizer, VocabError> {
    match AddSpecials(loaded, InvertItems(loaded), [unkToken, padToken])
    case Failure(e) => Failure(e)
    case Success(tables) => Success(SimpleVocabTokenizer(ItemsToMap(tables.0), tables.1, unkToken, padToken))
  }

  /** The special-token loop of the constructor. */
  method NewSimpleVocabTokenizer(loaded: Items, unkToken: string, padToken: string)
    returns (r: Result<SimpleVocabTokenizer, VocabError>)
    ensures r == Built(loaded, unkToken, padToken)
  {
    var tokenToId := loaded;
    var idToToken := InvertItems(loaded);
    var specials := [unkToken, padToken];
    AddSpecialsPair(loaded, idToToken, unkToken, padToken);
    assert specials[..1] == [unkToken];
    for i := 0 to |specials|
      invariant AddSpecials(loaded, InvertItems(loaded), specials[..i]) == Success((tokenToId, idToToken))
    {
      var t := specials[i];
      assert specials[..i + 1][..i] == specials[..i];
      if t !in ItemsToMap(tokenToId) {
        if tokenToId == [] {
          assert specials[..2] == specials;
          return Failure(EmptyVocabulary);
        }
        var nid := MaxId(tokenToId) + 1;
        tokenToId := tokenToId + [(t, nid)];
        idToToken := idToToken[nid := t];
      }
    }
    assert specials[..|specials|] == specials;
    return Success(SimpleVocabTokenizer(ItemsToMap(tokenToId), idToToken, unkToken, padToken));
  }

  lemma ItemsToMapAppend(items: Items, k: string, v: int)
    ensures ItemsToMap(items + [(k, v)]) == ItemsToMap(items)[k := v]
  {
    assert (items + [(k, v)])[..|items|] == items;
  }

  /** The largest id is the id of some token of the dict. */
  lemma MaxIdIsValue(items: Items)
    requires items != [] && DistinctKeys(items)
    ensures MaxId(items) in ItemsToMap(items).Values
  {
    ItemsToMapEntries(items);
    var i :| 0 <= i < |items| && items[i].1 == MaxId(items);
    assert ItemsToMap(items)[items[i].0] == MaxId(items);
  }

  /** A token that is not a key is added with one more than the largest
      id: a fresh id, so every existing entry stays and the tables stay
      inverse. */
  lemma AddedSpecialFacts(items: Items, idToToken: map<int, string>, t: string)
    requires DistinctKeys(items) && Inverse(ItemsToMap(items), idToToken)
    requires items != [] && t !in ItemsToMap(items)
    ensures var nid := MaxId(items) + 1; var m0 := ItemsToMap(items);
      && DistinctKeys(items + [(t, nid)])
      && ItemsToMap(items + [(t, nid)]) == m0[t := nid]
      && Inverse(m0[t := nid], idToToken[nid := t])
      && nid !in idToToken
      && (forall k :: k in m0 ==> m0[k] < nid)
      && nid - 1 in m0.Values
      && (Injective(m0) ==> Injective(m0[t := nid]))
  {
    var nid := MaxId(items) + 1;
    var m0 := ItemsToMap(items);
    assert ItemsToMap(items + [(t, nid)]) == m0[t := nid] by {
      ItemsToMapAppend(items, t, nid);
    }
    assert nid !in m0.Values && forall k :: k in m0 ==> m0[k] < nid by {
      MaxIdFresh(items);
    }
    assert nid !in idToToken;
    assert nid - 1 in m0.Values by {
      MaxIdIsValue(items);
    }
    assert Inverse(m0[t := nid], idToToken[nid := t]) by {
      InverseExtend(m0, idToToken, t, nid);
    }
    if Injective(m0) {
      InjectiveExtend(m0, t, nid);
    }
    DistinctKeysAppend(items, t, nid);
  }

  /** Appending a token that is not a key keeps the keys distinct. */
  lemma DistinctKeysAppend(items: Items, t: string, id: int)
    requires DistinctKeys(items) && t !in ItemsToMap(items)
    ensures DistinctKeys(items + [(t, id)])
  {
    ItemsToMapKeys(items);
    var items' := items + [(t, id)];
    forall a, b | 0 <= a < b < |items'| ensures items'[a].0 != items'[b].0 {
      if b == |items| {
        assert items[a].0 == items'[a].0;
      }
    }
  }

  /** One pass of the loop on a non-empty dict succeeds and either leaves
      the tables as they are (the token is a key) or adds the token with a
      fresh id. */
  lemma AddSpecialStep(items: Items, idToToken: map<int, string>, t: string)
    requires DistinctKeys(items) && Inverse(ItemsToMap(items), idToToken) && items != []
    ensures var r := AddSpecial(items, idToToken, t);
      var nid := MaxId(items) + 1; var m0 := ItemsToMap(items);
      && r.Success? && r.value.0 != []
      && DistinctKeys(r.value.0)
      && Inverse(ItemsToMap(r.value.0), r.value.1)
      && ItemsToMap(r.value.0) == (if t in m0 then m0 else m0[t := nid])
      && r.value.1 == (if t in m0 then idToToken else idToToken[nid := t])
  {
    if t !in ItemsToMap(items) {
      AddedSpecialFacts(items, idToToken, t);
    }
  }

  /** One pass of the loop on a non-empty dict, described entry by entry. */
  lemma StepFacts(items: Items, idToToken: map<int, string>, t: string)
    returns (items': Items, idToToken': map<int, string>)
    requires DistinctKeys(items) && Inverse(ItemsToMap(items), idToToken) && items != []
    ensures AddSpecial(items, idToToken, t) == Success((items', idToToken'))
    ensures items' != [] && DistinctKeys(items') && Inverse(ItemsToMap(items'), idToToken')
    ensures ItemsToMap(items').Keys == ItemsToMap(items).Keys + {t}
    ensures forall k :: k in ItemsToMap(items) ==> ItemsToMap(items')[k] == ItemsToMap(items)[k]
    ensures forall id :: id in idToToken ==> id in idToToken' && idToToken'[id] == idToToken[id]
    ensures t !in ItemsToMap(items) ==>
      && idToToken'[ItemsToMap(items')[t]] == t
      && (forall k :: k in ItemsToMap(items) ==> ItemsToMap(items)[k] < ItemsToMap(items')[t])
      && ItemsToMap(items')[t] - 1 in ItemsToMap(items).Values
      && ItemsToMap(items') - {t} == ItemsToMap(items)
    ensures Injective(ItemsToMap(items)) ==> Injective(ItemsToMap(items'))
  {
    AddSpecialStep(items, idToToken, t);
    items', idToToken' := AddSpecial(items, idToToken, t).value.0, AddSpecial(items, idToToken, t).value.1;
    if t !in ItemsToMap(items) {
      AddedSpecialFacts(items, idToToken, t);
      var m0 := ItemsToMap(items);
      assert m0[t := MaxId(items) + 1] - {t} == m0;
    }
  }

  /** One pass adds its token to the keys and keeps every entry. */
  lemma StepKeys(items: Items, idToToken: map<int, string>, t: string)
    requires DistinctKeys(items) && Inverse(ItemsToMap(items), idToToken) && items != []
    requires AddSpecial(items, idToToken, t).Success?
    ensures var m := ItemsToMap(AddSpecial(items, idToToken, t).value.0);
      && m.Keys == ItemsToMap(items).Keys + {t}
      && forall k :: k in ItemsToMap(items) ==> m[k] == ItemsToMap(items)[k]
  {
    var _, _ := StepFacts(items, idToToken, t);
  }

  /** A token a pass adds gets an id above every other id, one more than
      one of them. */
  lemma StepFresh(items: Items, idToToken: map<int, string>, t: string)
    requires DistinctKeys(items) && Inverse(ItemsToMap(items), idToToken) && items != []
    requires t !in ItemsToMap(items)
    ensures var m := ItemsToMap(AddSpecial(items, idToToken, t).value.0);
      && t in m
      && (forall k :: k in m && k != t ==> m[k] < m[t])
      && m[t] - 1 in (m - {t}).Values
  {
    var items', _ := StepFacts(items, idToToken, t);
    var m0, m := ItemsToMap(items), ItemsToMap(items');
    forall k | k in m && k != t ensures m[k] < m[t] {
      assert k in m0;
    }
  }

  /** The construction of a non-empty vocabulary as its two passes. */
  lemma BuiltSteps(loaded: Items, unkToken: string, padToken: string)
    returns (items1: Items, idToToken1: map<int, string>, items2: Items, idToToken2: map<int, string>)
    requires DistinctKeys(loaded) && loaded != []
    ensures AddSpecial(loaded, InvertItems(loaded), unkToken) == Success((items1, idToToken1))
    ensures AddSpecial(items1, idToToken1, padToken) == Success((items2, idToToken2))
    ensures DistinctKeys(items1) && items1 != [] && Inverse(ItemsToMap(items1), idToToken1)
    ensures Built(loaded, unkToken, padToken) == Success(SimpleVocabTokenizer(ItemsToMap(items2), idToToken2, unkToken, padToken))
  {
    AddSpecialsPair(loaded, InvertItems(loaded), unkToken, padToken);
    InvertItemsInverse(loaded);
    items1, idToToken1 := StepFacts(loaded, InvertItems(loaded), unkToken);
    items2, idToToken2 := StepFacts(items1, idToToken1, padToken);
  }

  /** Construction fails exactly when the loaded vocabulary is empty (the
      `max` of no values). */
  lemma BuiltFailsIffEmpty(loaded: Items, unkToken: string, padToken: string)
    requires DistinctKeys(loaded)
    ensures Built(loaded, unkToken, padToken).Failure? <==> loaded == []
    ensures Built(loaded, unkToken, padToken).Failure? ==> Built(loaded, unkToken, padToken).error == EmptyVocabulary
  {
    AddSpecialsPair(loaded, InvertItems(loaded), unkToken, padToken);
    if loaded != [] {
      var _, _, _, _ := BuiltSteps(loaded, unkToken, padToken);
    }
  }

  /** A constructed tokenizer has the loaded tokens plus the two special
      tokens as keys (one fewer when they are the same), the loaded tokens
      keep their ids, and it is valid. */
  lemma BuiltKeys(loaded: Items, unkToken: string, padToken: string)
    requires DistinctKeys(loaded)
    requires Built(loaded, unkToken, padToken).Success?
    ensures var tok := Built(loaded, unkToken, padToken).value;
      && tok.tokenToId.Keys == ItemsToMap(loaded).Keys + {unkToken, padToken}
      && (forall k :: k in ItemsToMap(loaded) ==> tok.tokenToId[k] == ItemsToMap(loaded)[k])
  {
    BuiltFailsIffEmpty(loaded, unkToken, padToken);
    var items1, idToToken1, items2, idToToken2 := BuiltSteps(loaded, unkToken, padToken);
    InvertItemsInverse(loaded);
    StepKeys(loaded, InvertItems(loaded), unkToken);
    StepKeys(items1, idToToken1, padToken);
    var m0, m1, m2 := ItemsToMap(loaded), ItemsToMap(items1), ItemsToMap(items2);
    assert m2.Keys == m0.Keys + {unkToken, padToken};
  }

  /** Construction keeps every entry of the loaded id table, and maps an
      added special token's id back to the token. */
  lemma BuiltIdTable(loaded: Items, unkToken: string, padToken: string)
    requires DistinctKeys(loaded)
    requires Built(loaded, unkToken, padToken).Success?
    ensures var tok := Built(loaded, unkToken, padToken).value;
      && Valid(tok)
      && tok.tokenToId[unkToken] in tok.idToToken && tok.tokenToId[padToken] in tok.idToToken
      && (forall id :: id in InvertItems(loaded) ==> id in tok.idToToken && tok.idToToken[id] == InvertItems(loaded)[id])
      && (unkToken !in ItemsToMap(loaded) ==> tok.idToToken[tok.tokenToId[unkToken]] == unkToken)
      && (padToken !in ItemsToMap(loaded) ==> tok.idToToken[tok.tokenToId[padToken]] == padToken)
  {
    BuiltFailsIffEmpty(loaded, unkToken, padToken);
    var items1, idToToken1, items2, idToToken2 := BuiltSteps(loaded, unkToken, padToken);
    InvertItemsInverse(loaded);
    var _, _ := StepFacts(loaded, InvertItems(loaded), unkToken);
    var _, _ := StepFacts(items1, idToToken1, padToken);
    var m1, m2 := ItemsToMap(items1), ItemsToMap(items2);
    if unkToken !in ItemsToMap(loaded) && unkToken != padToken {
      assert m2[unkToken] == m1[unkToken];
      assert idToToken1[m1[unkToken]] == unkToken;
    }
    if padToken !in ItemsToMap(loaded) && padToken == unkToken {
      assert padToken in m1;
    }
  }

  /** The unknown token, when added, gets one more than the largest
      loaded id. */
  lemma BuiltUnkIdFresh(loaded: Items, unkToken: string, padToken: string)
    requires DistinctKeys(loaded) && unkToken !in ItemsToMap(loaded)
    requires Built(loaded, unkToken, padToken).Success?
    ensures var tok := Built(loaded, unkToken, padToken).value;
      var base := ItemsToMap(loaded);
      && unkToken in tok.tokenToId
      && (forall k :: k in base ==> base[k] < tok.tokenToId[unkToken])
      && tok.tokenToId[unkToken] - 1 in base.Values
  {
    BuiltFailsIffEmpty(loaded, unkToken, padToken);
    var items1, idToToken1, items2, idToToken2 := BuiltSteps(loaded, unkToken, padToken);
    InvertItemsInverse(loaded);
    var _, _ := StepFacts(loaded, InvertItems(loaded), unkToken);
    var _, _ := StepFacts(items1, idToToken1, padToken);
    assert ItemsToMap(items2)[unkToken] == ItemsToMap(items1)[unkToken];
  }

  /** A distinct padding token, when added, gets one more than the largest
      id before it, the unknown token's included. */
  lemma BuiltPadIdFresh(loaded: Items, unkToken: string, padToken: string)
    requires DistinctKeys(loaded) && padToken !in ItemsToMap(loaded) && padToken != unkToken
    requires Built(loaded, unkToken, padToken).Success?
    ensures var tok := Built(loaded, unkToken, padToken).value;
      && padToken in tok.tokenToId
      && (forall k :: k in tok.tokenToId && k != padToken ==> tok.tokenToId[k] < tok.tokenToId[padToken])
      && tok.tokenToId[padToken] - 1 in (tok.tokenToId - {padToken}).Values
  {
    BuiltFailsIffEmpty(loaded, unkToken, padToken);
    var items1, idToToken1, items2, idToToken2 := BuiltSteps(loaded, unkToken, padToken);
    InvertItemsInverse(loaded);
    StepKeys(loaded, InvertItems(loaded), unkToken);
    StepFresh(items1, idToToken1, padToken);
  }

  /** Construction keeps the ids distinct when the loaded ones are, and
      then the id table recovers every token. */
  lemma BuiltInjective(loaded: Items, unkToken: string, padToken: string)
    requires DistinctKeys(loaded) && Injective(ItemsToMap(loaded))
    requires Built(loaded, unkToken, padToken).Success?
    ensures var tok := Built(loaded, unkToken, padToken).value;
      && Injective(tok.tokenToId)
      && forall k :: k in tok.tokenToId ==> tok.tokenToId[k] in tok.idToToken && tok.idToToken[tok.tokenToId[k]] == k
  {
    BuiltFailsIffEmpty(loaded, unkToken, padToken);
    var items1, idToToken1, items2, idToToken2 := BuiltSteps(loaded, unkToken, padToken);
    InvertItemsInverse(loaded);
    var _, _ := StepFacts(loaded, InvertItems(loaded), unkToken);
    var _, _ := StepFacts(items1, idToToken1, padToken);
    InverseOfInjective(ItemsToMap(items2), idToToken2);
  }

  // ------------------------------------------------------------ encoding

  /** str.isspace of Python on one character: the .NET white space and
      the separators U+001C..U+001F. */
  predicate IsPythonSpace(c: char) {
    IsDotNetWhiteSpace(c) || (0x1C <= c as int <= 0x1F)
  }

  /** A word of str.split(): non-empty, without white space. */
  predicate IsWord(w: string) {
    w != [] && forall j :: 0 <= j < |w| ==> !IsPythonSpace(w[j])
  }

  /** The length of the run of non-space characters that starts `s`. */
  function WordLength(s: string): (n: nat)
    ensures n <= |s|
  {
    if s == [] || IsPythonSpace(s[0]) then 0 else 1 + WordLength(s[1..])
  }

  /** The run is maximal: none of its characters is white space, and the
      character after it is. */
  lemma {:induction false} WordLengthFacts(s: string)
    ensures var n := WordLength(s);
      && (forall i :: 0 <= i < n ==> !IsPythonSpace(s[i]))
      && (n < |s| ==> IsPythonSpace(s[n]))
  {
    if s != [] && !IsPythonSpace(s[0]) {
      WordLengthFacts(s[1..]);
    }
  }

  /** str.split() with no argument: the maximal runs of non-space
      characters, in order. */
  function Split(s: string): seq<string>
    decreases |s|
  {
    if s == [] then []
    else if IsPythonSpace(s[0]) then Split(s[1..])
    else
      var n := WordLength(s);
      [s[..n]] + Split(s[n..])
  }

  /** Every word of the split is a word: non-empty, without white space. */
  lemma {:induction false} SplitWords(s: string)
    ensures forall i :: 0 <= i < |Split(s)| ==> IsWord(Split(s)[i])
    decreases |s|
  {
    if s != [] {
      if IsPythonSpace(s[0]) {
        SplitWords(s[1..]);
      } else {
        var n := WordLength(s);
        WordLengthFacts(s);
        SplitWords(s[n..]);
        assert Split(s) == [s[..n]] + Split(s[n..]);
      }
    }
  }

  /** `token_to_id.get(ch, token_to_id[unk_token])`. */
  function CharId(tok: SimpleVocabTokenizer, c: char): int
    requires tok.unkToken in tok.tokenToId
  {
    if [c] in tok.tokenToId then tok.tokenToId[[c]] else tok.tokenToId[tok.unkToken]
  }

  /** The character fallback: one id per character. */
  function CharIds(tok: SimpleVocabTokenizer, w: string): seq<int>
    requires tok.unkToken in tok.tokenToId
  {
    if w == [] then []
    else CharIds(tok, w[..|w| - 1]) + [CharId(tok, w[|w| - 1])]
  }

  /** The fallback gives one id per character, in order. */
  lemma {:induction false} CharIdsFacts(tok: SimpleVocabTokenizer, w: string)
    requires tok.unkToken in tok.tokenToId
    ensures |CharIds(tok, w)| == |w|
    ensures forall i :: 0 <= i < |w| ==> CharIds(tok, w)[i] == CharId(tok, w[i])
  {
    if w != [] {
      var front := w[..|w| - 1];
      CharIdsFacts(tok, front);
      assert forall i :: 0 <= i < |front| ==> front[i] == w[i];
    }
  }

  lemma CharIdsStep(tok: SimpleVocabTokenizer, w: string, c: nat)
    requires tok.unkToken in tok.tokenToId && c < |w|
    ensures CharIds(tok, w[..c + 1]) == CharIds(tok, w[..c]) + [CharId(tok, w[c])]
  {
    assert w[..c + 1][..c] == w[..c];
  }

  /** The ids of one word: its own id when it is a token, else the
      character fallback. */
  function WordIds(tok: SimpleVocabTokenizer, w: string): seq<int>
    requires tok.unkToken in tok.tokenToId
  {
    if w in tok.tokenToId then [tok.tokenToId[w]] else CharIds(tok, w)
  }

  /** The ids of a sequence of words, word after word. */
  function EncodeWords(tok: SimpleVocabTokenizer, words: seq<string>): seq<int>
    requires tok.unkToken in tok.tokenToId
  {
    if words == [] then []
    else EncodeWords(tok, words[..|words| - 1]) + WordIds(tok, words[|words| - 1])
  }

  /** `encode`: the ids of the words of `text.strip()`. */
  function EncodeText(tok: SimpleVocabTokenizer, text: string): seq<int>
    requires tok.unkToken in tok.tokenToId
  {
    EncodeWords(tok, Split(TrimBy(text, IsPythonSpace)))
  }

  lemma EncodeWordsStep(tok: SimpleVocabTokenizer, words: seq<string>, j: nat)
    requires tok.unkToken in tok.tokenToId && j < |words|
    ensures EncodeWords(tok, words[..j + 1]) == EncodeWords(tok, words[..j]) + WordIds(tok, words[j])
  {
    assert words[..j + 1][..j] == words[..j];
  }

  method Encode(tok: SimpleVocabTokenizer, text: string) returns (ids: seq<int>)
    requires tok.unkToken in tok.tokenToId
    ensures ids == EncodeText(tok, text)
  {
    var tokens := Split(TrimBy(text, IsPythonSpace));
    ids := [];
    for j := 0 to |tokens|
      invariant ids == EncodeWords(tok, tokens[..j])
    {
      var t := tokens[j];
      ghost var before := ids;
      if t in tok.tokenToId {
        ids := ids + [tok.tokenToId[t]];
      } else {
        assert t[..0] == [];
        for c := 0 to |t|
          invariant ids == before + CharIds(tok, t[..c])
        {
          CharIdsStep(tok, t, c);
          AppendAssociative(before, CharIds(tok, t[..c]), [CharId(tok, t[c])]);
          ids := ids + [CharId(tok, t[c])];
        }
        assert t[..|t|] == t;
      }
      assert ids == before + WordIds(tok, t);
      EncodeWordsStep(tok, tokens, j);
    }
    assert tokens[..|tokens|] == tokens;
  }

  /** `decode` of one id: its token, or `unk_token` for an unknown id. */
  function TokenOf(tok: SimpleVocabTokenizer, id: int): string {
    if id in tok.idToToken then tok.idToToken[id] else tok.unkToken
  }

  /** `decode`: the tokens of the ids, joined. */
  function Decode(tok: SimpleVocabTokenizer, ids: seq<int>): string {
    if ids == [] then "" else TokenOf(tok, ids[0]) + Decode(tok, ids[1..])
  }

  // ------------------------------------------------------------- lemmas

  lemma {:induction false} WordLengthAppend(a: string, b: string)
    ensures WordLength(a + b) == if WordLength(a) < |a| then WordLength(a) else |a| + WordLength(b)
  {
    if a == [] {
      assert a + b == b;
    } else if !IsPythonSpace(a[0]) {
      assert (a + b)[1..] == a[1..] + b;
      WordLengthAppend(a[1..], b);
    }
  }

  /** Splitting distributes over a concatenation that does not glue two
      words together. */
  lemma {:induction false} SplitAppend(a: string, b: string)
    requires a == [] || b == [] || IsPythonSpace(a[|a| - 1]) || IsPythonSpace(b[0])
    ensures Split(a + b) == Split(a) + Split(b)
    decreases |a|
  {
    if a == [] {
      assert a + b == b;
    } else if b == [] {
      assert a + b == a;
    } else if IsPythonSpace(a[0]) {
      var rest := a[1..];
      assert rest != [] ==> rest[|rest| - 1] == a[|a| - 1];
      SplitAppend(rest, b);
      SplitAppendAfterSpace(a, b);
    } else if WordLength(a) < |a| {
      var n := WordLength(a);
      WordLengthFacts(a);
      var rest := a[n..];
      assert rest[|rest| - 1] == a[|a| - 1];
      SplitAppend(rest, b);
      SplitAppendAfterWord(a, b);
    } else {
      WordLengthFacts(a);
      assert !IsPythonSpace(a[|a| - 1]);
      SplitAppendWholeWord(a, b);
    }
  }

  /** A leading white space character is dropped on both sides. */
  lemma SplitAppendAfterSpace(a: string, b: string)
    requires a != [] && IsPythonSpace(a[0])
    requires Split(a[1..] + b) == Split(a[1..]) + Split(b)
    ensures Split(a + b) == Split(a) + Split(b)
  {
    assert (a + b)[1..] == a[1..] + b;
  }

  /** The first word of `a` ends inside `a`: it is also the first word of
      `a + b`, and the rest follows. */
  lemma SplitAppendAfterWord(a: string, b: string)
    requires a != [] && !IsPythonSpace(a[0]) && WordLength(a) < |a|
    requires Split(a[WordLength(a)..] + b) == Split(a[WordLength(a)..]) + Split(b)
    ensures Split(a + b) == Split(a) + Split(b)
  {
    var n := WordLength(a);
    var w := [a[..n]];
    var ab := a + b;
    WordLengthAppend(a, b);
    assert ab[0] == a[0];
    assert ab[..n] == a[..n];
    assert ab[n..] == a[n..] + b;
    assert Split(ab) == w + Split(a[n..] + b);
    assert Split(a) == w + Split(a[n..]);
    assert w + (Split(a[n..]) + Split(b)) == w + Split(a[n..]) + Split(b);
  }

  /** `a` is one word and `b` starts with white space. */
  lemma SplitAppendWholeWord(a: string, b: string)
    requires a != [] && b != [] && IsPythonSpace(b[0]) && WordLength(a) == |a|
    ensures Split(a + b) == Split(a) + Split(b)
  {
    var ab := a + b;
    WordLengthAppend(a, b);
    assert WordLength(b) == 0;
    assert ab[0] == a[0];
    assert !IsPythonSpace(a[0]);
    assert ab[..|a|] == a == a[..|a|];
    assert ab[|a|..] == b;
    assert a[|a|..] == [];
  }

  /** Only white space splits into no words. */
  lemma {:induction false} SplitBlank(s: string)
    ensures Split(s) == [] <==> AllBy(s, IsPythonSpace)
    decreases |s|
  {
    if s != [] && IsPythonSpace(s[0]) {
      SplitBlank(s[1..]);
      assert s == [s[0]] + s[1..];
    }
  }

  /** A word splits into itself. */
  lemma SplitWord(w: string)
    requires IsWord(w)
    ensures Split(w) == [w]
  {
    WordLengthFacts(w);
    assert WordLength(w) == |w|;
    assert w[..|w|] == w && w[|w|..] == [];
  }

  lemma SplitLeadingSpace(sep: char, b: string)
    requires IsPythonSpace(sep)
    ensures Split([sep] + b) == Split(b)
  {
    assert ([sep] + b)[1..] == b;
  }

  /** `strip()` before `split()` makes no difference. */
  lemma SplitIgnoresStrip(s: string)
    ensures Split(TrimBy(s, IsPythonSpace)) == Split(s)
  {
    var t := TrimStartBy(s, IsPythonSpace);
    TrimStartByFacts(s, IsPythonSpace);
    var r := TrimEndBy(t, IsPythonSpace);
    TrimEndByFacts(t, IsPythonSpace);
    var pre, suf := s[..|s| - |t|], t[|r|..];
    assert s == pre + t && t == r + suf;
    SplitBlankPrefix(pre, t);
    SplitBlankSuffix(r, suf);
  }

  /** Leading white space contributes no word. */
  lemma SplitBlankPrefix(pre: string, t: string)
    requires AllBy(pre, IsPythonSpace)
    ensures Split(pre + t) == Split(t)
  {
    assert pre == [] || IsPythonSpace(pre[|pre| - 1]);
    SplitAppend(pre, t);
    SplitBlank(pre);
  }

  /** Trailing white space contributes no word. */
  lemma SplitBlankSuffix(r: string, suf: string)
    requires AllBy(suf, IsPythonSpace)
    ensures Split(r + suf) == Split(r)
  {
    assert suf == [] || IsPythonSpace(suf[0]);
    SplitAppend(r, suf);
    SplitBlank(suf);
  }

  lemma {:induction false} EncodeWordsAppend(tok: SimpleVocabTokenizer, a: seq<string>, b: seq<string>)
    requires tok.unkToken in tok.tokenToId
    ensures EncodeWords(tok, a + b) == EncodeWords(tok, a) + EncodeWords(tok, b)
    decreases |b|
  {
    if b == [] {
      assert a + b == a;
    } else {
      assert (a + b)[..|a + b| - 1] == a + b[..|b| - 1];
      EncodeWordsAppend(tok, a, b[..|b| - 1]);
      AppendAssociative(EncodeWords(tok, a), EncodeWords(tok, b[..|b| - 1]), WordIds(tok, b[|b| - 1]));
    }
  }

  /** The ids of a text are the ids of its words. */
  lemma EncodeTextSplit(tok: SimpleVocabTokenizer, text: string)
    requires tok.unkToken in tok.tokenToId
    ensures EncodeText(tok, text) == EncodeWords(tok, Split(text))
  {
    SplitIgnoresStrip(text);
  }

  /** The ids of a word are ids of tokens, and a non-empty word has some. */
  lemma WordIdsFacts(tok: SimpleVocabTokenizer, w: string)
    requires tok.unkToken in tok.tokenToId
    ensures forall i :: 0 <= i < |WordIds(tok, w)| ==> WordIds(tok, w)[i] in tok.tokenToId.Values
    ensures w != [] ==> |WordIds(tok, w)| >= 1
  {
    CharIdsFacts(tok, w);
    if w !in tok.tokenToId {
      forall i | 0 <= i < |w| ensures CharId(tok, w[i]) in tok.tokenToId.Values {
        if [w[i]] in tok.tokenToId {
          assert tok.tokenToId[[w[i]]] in tok.tokenToId.Values;
        } else {
          assert tok.tokenToId[tok.unkToken] in tok.tokenToId.Values;
        }
      }
    } else {
      assert tok.tokenToId[w] in tok.tokenToId.Values;
    }
  }

  /** Every id produced is the id of some token, and each non-empty word
      gives at least one id. */
  lemma {:induction false} EncodeWordsFacts(tok: SimpleVocabTokenizer, words: seq<string>)
    requires tok.unkToken in tok.tokenToId
    ensures var ids := EncodeWords(tok, words);
      && (forall i :: 0 <= i < |ids| ==> ids[i] in tok.tokenToId.Values)
      && ((forall i :: 0 <= i < |words| ==> words[i] != []) ==> |ids| >= |words|)
  {
    if words != [] {
      var front := words[..|words| - 1];
      EncodeWordsFacts(tok, front);
      var last := WordIds(tok, words[|words| - 1]);
      WordIdsFacts(tok, words[|words| - 1]);
      assert EncodeWords(tok, words) == EncodeWords(tok, front) + last;
      assert forall i :: 0 <= i < |words| - 1 ==> front[i] == words[i];
    }
  }

  /** An empty or white-space-only text encodes to no ids, and only such
      a text does. */
  lemma EncodeBlank(tok: SimpleVocabTokenizer, text: string)
    requires tok.unkToken in tok.tokenToId
    ensures EncodeText(tok, text) == [] <==> AllBy(text, IsPythonSpace)
  {
    EncodeTextSplit(tok, text);
    SplitBlank(text);
    SplitWords(text);
    EncodeWordsFacts(tok, Split(text));
  }

  /** A single word contributes its own id when it is a token, and
      otherwise one id per character, the unknown token's id for a
      character that is not a token. */
  lemma EncodeSingleWord(tok: SimpleVocabTokenizer, w: string)
    requires tok.unkToken in tok.tokenToId && IsWord(w)
    ensures w in tok.tokenToId ==> EncodeText(tok, w) == [tok.tokenToId[w]]
    ensures w !in tok.tokenToId ==>
      && |EncodeText(tok, w)| == |w|
      && forall i :: 0 <= i < |w| ==>
           EncodeText(tok, w)[i] == (if [w[i]] in tok.tokenToId then tok.tokenToId[[w[i]]] else tok.tokenToId[tok.unkToken])
  {
    EncodeTextSplit(tok, w);
    SplitWord(w);
    CharIdsFacts(tok, w);
    assert [w][..0] == [];
  }

  /** Texts joined by white space encode to the joined ids. */
  lemma EncodeJoin(tok: SimpleVocabTokenizer, a: string, sep: char, b: string)
    requires tok.unkToken in tok.tokenToId && IsPythonSpace(sep)
    ensures EncodeText(tok, a + [sep] + b) == EncodeText(tok, a) + EncodeText(tok, b)
  {
    var tail := [sep] + b;
    var joined := a + [sep] + b;
    assert joined == a + tail;
    EncodeTextSplit(tok, joined);
    EncodeTextSplit(tok, a);
    EncodeTextSplit(tok, b);
    SplitAppend(a, tail);
    SplitLeadingSpace(sep, b);
    EncodeWordsAppend(tok, Split(a), Split(b));
  }

  lemma {:induction false} DecodeConcat(tok: SimpleVocabTokenizer, a: seq<int>, b: seq<int>)
    ensures Decode(tok, a + b) == Decode(tok, a) + Decode(tok, b)
  {
    if a != [] {
      assert (a + b)[1..] == a[1..] + b;
      DecodeConcat(tok, a[1..], b);
      AppendAssociative(TokenOf(tok, a[0]), Decode(tok, a[1..]), Decode(tok, b));
    } else {
      assert a + b == b;
      assert "" + Decode(tok, b) == Decode(tok, b);
    }
  }

  /** A word decodes back from its ids when it is a token or all of its
      characters are. */
  predicate Known(tok: SimpleVocabTokenizer, w: string) {
    w in tok.tokenToId || forall i :: 0 <= i < |w| ==> [w[i]] in tok.tokenToId
  }

  lemma {:induction false} CharIdsRoundTrip(tok: SimpleVocabTokenizer, w: string)
    requires Valid(tok) && Injective(tok.tokenToId)
    requires forall i :: 0 <= i < |w| ==> [w[i]] in tok.tokenToId
    ensures Decode(tok, CharIds(tok, w)) == w
  {
    if w != [] {
      var front, c := w[..|w| - 1], w[|w| - 1];
      assert forall i :: 0 <= i < |front| ==> front[i] == w[i];
      CharIdsRoundTrip(tok, front);
      DecodeConcat(tok, CharIds(tok, front), [CharId(tok, c)]);
      DecodeKnownToken(tok, [c]);
      assert front + [c] == w;
    }
  }

  /** The id of a token decodes back to that token. */
  lemma DecodeKnownToken(tok: SimpleVocabTokenizer, t: string)
    requires Valid(tok) && Injective(tok.tokenToId) && t in tok.tokenToId
    ensures Decode(tok, [tok.tokenToId[t]]) == t
  {
    InverseOfInjective(tok.tokenToId, tok.idToToken);
    assert Decode(tok, [tok.tokenToId[t]]) == t + "";
  }

  lemma WordRoundTrip(tok: SimpleVocabTokenizer, w: string)
    requires Valid(tok) && Injective(tok.tokenToId) && Known(tok, w)
    ensures Decode(tok, WordIds(tok, w)) == w
  {
    if w in tok.tokenToId {
      DecodeKnownToken(tok, w);
    } else {
      CharIdsRoundTrip(tok, w);
    }
  }

  lemma {:induction false} WordsRoundTrip(tok: SimpleVocabTokenizer, words: seq<string>)
    requires Valid(tok) && Injective(tok.tokenToId)
    requires forall i :: 0 <= i < |words| ==> Known(tok, words[i])
    ensures Decode(tok, EncodeWords(tok, words)) == Concat(words)
  {
    if words != [] {
      var front := words[..|words| - 1];
      WordsRoundTrip(tok, front);
      WordRoundTrip(tok, words[|words| - 1]);
      DecodeConcat(tok, EncodeWords(tok, front), WordIds(tok, words[|words| - 1]));
    }
  }

  /** With distinct ids, decoding the encoding of a text whose words are
      all known gives back the text without its white space. */
  lemma TextRoundTrip(tok: SimpleVocabTokenizer, text: string)
    requires Valid(tok) && Injective(tok.tokenToId)
    requires forall i :: 0 <= i < |Split(text)| ==> Known(tok, Split(text)[i])
    ensures Decode(tok, EncodeText(tok, text)) == Concat(Split(text)) == NoSpaces(text)
  {
    EncodeTextSplit(tok, text);
    WordsRoundTrip(tok, Split(text));
    ConcatSplitIsNoSpaces(text);
  }

  /** The text with every Python white-space character deleted. */
  function NoSpaces(s: string): string {
    if s == [] then []
    else (if IsPythonSpace(s[0]) then [] else [s[0]]) + NoSpaces(s[1..])
  }

  /** Concatenation peels off its first piece. */
  lemma {:induction false} ConcatCons(w: string, ss: seq<string>)
    ensures Concat([w] + ss) == w + Concat(ss)
    decreases |ss|
  {
    if ss == [] {
      assert [w] + ss == [w];
      assert Concat([w]) == Concat([]) + w;
    } else {
      var front := ss[..|ss| - 1];
      assert ([w] + ss)[..|ss|] == [w] + front;
      ConcatCons(w, front);
      AppendAssociative(w, Concat(front), ss[|ss| - 1]);
    }
  }

  /** A prefix without white space survives the deletion whole. */
  lemma {:induction false} NoSpacesPrefix(s: string, n: nat)
    requires n <= |s| && forall i :: 0 <= i < n ==> !IsPythonSpace(s[i])
    ensures NoSpaces(s) == s[..n] + NoSpaces(s[n..])
    decreases n
  {
    if n == 0 {
      assert s[..0] == [] && s[0..] == s;
    } else {
      var rest := s[1..];
      assert forall i :: 0 <= i < n - 1 ==> rest[i] == s[i + 1];
      NoSpacesPrefix(rest, n - 1);
      assert rest[n - 1..] == s[n..];
      assert [s[0]] + rest[..n - 1] == s[..n];
      AppendAssociative([s[0]], rest[..n - 1], NoSpaces(s[n..]));
    }
  }

  /** The words of `split()`, joined with nothing between them, are the text
      with its white space deleted. */
  lemma {:induction false} ConcatSplitIsNoSpaces(s: string)
    ensures Concat(Split(s)) == NoSpaces(s)
    decreases |s|
  {
    if s != [] {
      if IsPythonSpace(s[0]) {
        ConcatSplitIsNoSpaces(s[1..]);
        assert NoSpaces(s) == [] + NoSpaces(s[1..]);
      } else {
        var n := WordLength(s);
        WordLengthFacts(s);
        ConcatSplitIsNoSpaces(s[n..]);
        ConcatCons(s[..n], Split(s[n..]));
        NoSpacesPrefix(s, n);
      }
    }
  }

  /** With distinct ids, a single word of the vocabulary round-trips. */
  lemma SingleWordRoundTrip(tok: SimpleVocabTokenizer, w: string)
    requires Valid(tok) && Injective(tok.tokenToId) && IsWord(w) && w in tok.tokenToId
    ensures Decode(tok, EncodeText(tok, w)) == w
  {
    EncodeSingleWord(tok, w);
    WordRoundTrip(tok, w);
  }
}
