/** `GET /api/products/by-ids?ids=a,b,c`: the comma-separated id list and
    the active products it selects. */
module ProductsByIds {
  import opened Base

  /** `String.prototype.split(',')`: the pieces between commas, always at
      least one. */
  function Split(s: string): (r: seq<string>)
    ensures |r| >= 1
    ensures forall k :: 0 <= k < |r| ==> ',' !in r[k]
    decreases |s|
  {
    if |s| == 0 then [""]
    else
      var rest := Split(s[1..]);
      if s[0] == ',' then [""] + rest
      else [[s[0]] + rest[0]] + rest[1..]
  }

  /** `Array.prototype.join(',')`. */
  function Join(ps: seq<string>): (r: string)
    requires |ps| >= 1
    ensures |r| >= |ps| - 1
    decreases |ps|
  {
    if |ps| == 1 then ps[0] else ps[0] + [','] + Join(ps[1..])
  }

  /** Splitting loses nothing: joining the pieces gives the parameter back. */
  lemma {:induction false} JoinSplit(s: string)
    ensures Join(Split(s)) == s
    decreases |s|
  {
    if |s| > 0 {
      JoinSplit(s[1..]);
      var rest := Split(s[1..]);
      if s[0] == ',' {
        assert ([""] + rest)[1..] == rest;
      } else {
        var r := [[s[0]] + rest[0]] + rest[1..];
        if |rest| == 1 {
          assert r == [[s[0]] + rest[0]];
        } else {
          assert r[1..] == rest[1..];
          assert Join(rest) == rest[0] + [','] + Join(rest[1..]);
        }
        assert s == [s[0]] + s[1..];
      }
    }
  }

  /** Pieces without commas are split back exactly as they were joined. */
  lemma {:induction false} SplitJoin(ps: seq<string>)
    requires |ps| >= 1 && forall k :: 0 <= k < |ps| ==> ',' !in ps[k]
    ensures Split(Join(ps)) == ps
    decreases |ps|
  {
    if |ps| == 1 {
      SplitPiece(ps[0], []);
      assert ps[0] + [] == ps[0];
    } else {
      SplitJoin(ps[1..]);
      var t := [','] + Join(ps[1..]);
      assert t[1..] == Join(ps[1..]);
      SplitPiece(ps[0], t);
      assert Join(ps) == ps[0] + t;
      assert [ps[0]] + ps[1..] == ps;
    }
  }

  /** A comma-free piece in front of `t` ends up in the first piece of `t`,
      or, when `t` starts with a comma, is a piece of its own. */
  lemma {:induction false} SplitPiece(p: string, t: string)
    requires ',' !in p
    ensures |t| == 0 ==> Split(p + t) == [p]
    ensures |t| > 0 && t[0] == ',' ==> Split(p + t) == [p] + Split(t[1..])
    decreases |p|
  {
    if |p| == 0 {
      assert p + t == t;
      if |t| > 0 && t[0] == ',' {
        assert Split(t) == [""] + Split(t[1..]);
      }
    } else {
      SplitPiece(p[1..], t);
      assert (p + t)[1..] == p[1..] + t;
      assert [p[0]] + p[1..] == p;
      if |t| > 0 && t[0] == ',' {
        var rest := Split(p[1..] + t);
        assert rest == [p[1..]] + Split(t[1..]);
        assert Split(p + t) == [[p[0]] + rest[0]] + rest[1..];
        assert rest[1..] == Split(t[1..]);
      }
    }
  }

  predicate NonEmpty(piece: string) {
    |piece| > 0
  }

  /** `idsParam.split(',').filter(Boolean)`. */
  function Ids(param: string): (ids: seq<string>)
    ensures forall k :: 0 <= k < |ids| ==> |ids[k]| > 0 && ',' !in ids[k]
  {
    var ids := Filter(Split(param), NonEmpty);
    assert forall k :: 0 <= k < |ids| ==> ids[k] in ids;
    ids
  }

  function Concat(ps: seq<string>): string
    decreases |ps|
  {
    if |ps| == 0 then "" else ps[0] + Concat(ps[1..])
  }

  function RemoveCommas(s: string): (r: string)
    ensures ',' !in r
    decreases |s|
  {
    if |s| == 0 then "" else (if s[0] == ',' then "" else [s[0]]) + RemoveCommas(s[1..])
  }

  /** The ids, read one after the other, are the parameter without its commas. */
  lemma IdsSpellParameter(param: string)
    ensures Concat(Ids(param)) == RemoveCommas(param)
  {
    ConcatSplit(param);
    ConcatFilter(Split(param));
  }

  lemma {:induction false} ConcatSplit(s: string)
    ensures Concat(Split(s)) == RemoveCommas(s)
    decreases |s|
  {
    if |s| > 0 {
      ConcatSplit(s[1..]);
      var rest := Split(s[1..]);
      if s[0] == ',' {
        assert ([""] + rest)[1..] == rest;
      } else {
        var r := [[s[0]] + rest[0]] + rest[1..];
        assert r[1..] == rest[1..];
        assert Concat(rest) == rest[0] + Concat(rest[1..]);
      }
    }
  }

  /** Dropping empty pieces does not change what they spell. */
  lemma {:induction false} ConcatFilter(ps: seq<string>)
    ensures Concat(Filter(ps, NonEmpty)) == Concat(ps)
    decreases |ps|
  {
    if |ps| > 0 {
      ConcatFilter(ps[1..]);
      if |ps[0]| == 0 {
        assert Filter(ps, NonEmpty) == Filter(ps[1..], NonEmpty);
      }
    }
  }

  /** There are no ids exactly when the parameter is nothing but commas. */
  lemma NoIdsOnlyCommas(param: string)
    ensures |Ids(param)| == 0 <==> forall i :: 0 <= i < |param| ==> param[i] == ','
  {
    IdsSpellParameter(param);
    ConcatEmpty(Ids(param));
    RemoveCommasEmpty(param);
  }

  lemma {:induction false} ConcatEmpty(ps: seq<string>)
    requires forall k :: 0 <= k < |ps| ==> |ps[k]| > 0
    ensures |Concat(ps)| == 0 <==> |ps| == 0
  {
    if |ps| > 0 {
      assert |Concat(ps)| >= |ps[0]|;
    }
  }

  lemma {:induction false} RemoveCommasEmpty(s: string)
    ensures |RemoveCommas(s)| == 0 <==> forall i :: 0 <= i < |s| ==> s[i] == ','
    decreases |s|
  {
    if |s| > 0 {
      RemoveCommasEmpty(s[1..]);
      assert forall i :: 1 <= i < |s| ==> s[i] == s[1..][i - 1];
    }
  }

  /** A `products` row; `isActive` is nullable. The joined images and
      category travel with the row unchanged. */
  datatype Product = Product(id: string, isActive: Option<bool>)

  datatype Response =
    | Products(products: seq<Product>)   // 200
    | BadRequest(error: string)          // 400
    | ServerError(error: string)         // 500

  const IdsRequired := "IDs parameter required"
  const InternalError := "Internal server error"

  /** How the products query ends: rows, a reported error, or a thrown one. */
  datatype QueryAnswer = Rows | Reported(message: string) | Thrown

  predicate Selects(p: Product, ids: seq<string>) {
    p.id in ids && p.isActive == Some(true)
  }

  function Selected(table: seq<Product>, ids: seq<string>): (r: seq<Product>)
    ensures forall p :: p in r <==> p in table && Selects(p, ids)
    decreases |table|
  {
    if |table| == 0 then []
    else (if Selects(table[0], ids) then [table[0]] else []) + Selected(table[1..], ids)
  }

  /** The handler: an absent or empty parameter is a 400; an id list with no
      ids answers no products without a query; otherwise the active products
      whose id is listed, or a 500 carrying the query's error. */
  function GetByIds(table: seq<Product>, idsParam: Option<string>, answer: QueryAnswer): (r: Response)
    ensures r == BadRequest(IdsRequired) <==> !Truthy(idsParam)
    ensures Truthy(idsParam) && |Ids(idsParam.value)| == 0 ==> r == Products([])
    ensures r.Products? && |r.products| > 0 ==> Truthy(idsParam) && answer.Rows?
    ensures r.Products? ==> forall p :: p in r.products <==> p in table && Selects(p, Ids(idsParam.value))
    ensures Truthy(idsParam) && |Ids(idsParam.value)| > 0 ==>
              match answer
              case Rows => r.Products?
              case Reported(m) => r == ServerError(m)
              case Thrown => r == ServerError(InternalError)
  {
    if !Truthy(idsParam) then BadRequest(IdsRequired)
    else
      var ids := Ids(idsParam.value);
      if |ids| == 0 then Products([])
      else
        match answer
        case Rows => Products(Selected(table, ids))
        case Reported(m) => ServerError(m)
        case Thrown => ServerError(InternalError)
  }

  /** `?ids=a,,b,` asks for `a` and `b`; `?ids=,,` asks for nothing. */
  lemma IdsExamples()
    ensures Ids("a,,b,") == ["a", "b"]
    ensures Ids(",,") == []
  {
    SplitExample();
    SplitCommas();
    FilterExample();
    FilterEmpties();
  }

  lemma FilterEmpties()
    ensures Filter(["", "", ""], NonEmpty) == []
  {
    assert ["", "", ""][1..] == ["", ""] && ["", ""][1..] == [""] && [""][1..] == [];
    assert Filter([""], NonEmpty) == [];
    assert Filter(["", ""], NonEmpty) == [];
  }

  lemma FilterExample()
    ensures Filter(["a", "", "b", ""], NonEmpty) == ["a", "b"]
  {
    assert ["a", "", "b", ""][1..] == ["", "b", ""] && ["", "b", ""][1..] == ["b", ""];
    assert ["b", ""][1..] == [""] && [""][1..] == [];
    assert NonEmpty("a") && NonEmpty("b") && !NonEmpty("");
    assert Filter([""], NonEmpty) == [];
    assert Filter(["b", ""], NonEmpty) == ["b"];
    assert Filter(["", "b", ""], NonEmpty) == ["b"];
  }

  lemma SplitCommas()
    ensures Split(",,") == ["", "", ""]
  {
    assert Split("") == [""];
    assert Split(",") == ["", ""];
    assert ",,"[1..] == ",";
  }

  lemma SplitExample()
    ensures Split("a,,b,") == ["a", "", "b", ""]
  {
    SplitTail();
    assert ",,b,"[1..] == ",b,";
    assert Split(",,b,") == ["", "", "b", ""];
    assert "a,,b,"[1..] == ",,b," && ['a'] + "" == "a";
  }

  lemma SplitTail()
    ensures Split(",b,") == ["", "b", ""]
  {
    assert Split("") == [""];
    assert Split(",") == ["", ""];
    assert "b,"[1..] == "," && ['b'] + "" == "b";
    assert Split("b,") == ["b", ""];
    assert ",b,"[1..] == "b,";
  }
}
