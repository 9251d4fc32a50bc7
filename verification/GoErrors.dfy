/** Go error values and the classification of Postgres errors (sdk/storage/postgres/errors.go).

    An error is a tree, as `errors.As` and `errors.Is` see it: message texts are not modelled,
    `Nil` is Go's nil error, and a `Wrapped` node lists what its Unwrap method yields. */
module GoErrors {

  /** SQLSTATE of a driver error: the three the code maps, by their condition names (23503, 23505
      and 23514), and any other. */
  datatype SqlState = ForeignKeyViolation | UniqueViolation | CheckViolation | OtherState(code: string)

  /** Values made once by errors.New and compared by identity. */
  datatype Mark = ForeignKeyConstraint | UniqueConstraint | CheckConstraint | SlotTaken | OtherMark(name: string)

  datatype Error =
    | Nil
    | Sentinel(mark: Mark)
    | PgError(code: SqlState)
    | Wrapped(causes: seq<Error>)

  const ERR_FOREIGN_KEY := Sentinel(ForeignKeyConstraint)
  const ERR_UNIQUE := Sentinel(UniqueConstraint)
  const ERR_CHECK := Sentinel(CheckConstraint)
  const ERR_SLOT_TAKEN := Sentinel(SlotTaken)

  /** `errors.As` with a *PgError target: the first one met depth first, or Nil. */
  function FirstPg(e: Error): Error
    decreases e, 0
  {
    match e
    case PgError(_) => e
    case Wrapped(causes) => FirstPgAmong(causes)
    case _ => Nil
  }

  function FirstPgAmong(es: seq<Error>): Error
    decreases es, 1
  {
    if es == [] then Nil
    else
      var first := FirstPg(es[0]);
      if first.PgError? then first else FirstPgAmong(es[1..])
  }

  /** `errors.Is` for a sentinel target. */
  predicate Is(e: Error, target: Error)
    requires target.Sentinel?
  {
    e == target || (e.Wrapped? && exists i :: 0 <= i < |e.causes| && Is(e.causes[i], target))
  }

  predicate HasCode(e: Error, code: SqlState) {
    FirstPg(e).PgError? && FirstPg(e).code == code
  }

  predicate IsUniqueConstraintErr(e: Error) { HasCode(e, UniqueViolation) }

  predicate IsCheckConstraintErr(e: Error) { HasCode(e, CheckViolation) }

  predicate IsForeignKeyConstraintErr(e: Error) { HasCode(e, ForeignKeyViolation) }

  /** The mapped cases format the driver error with %v and wrap only the sentinel, so the
      driver error leaves the chain; the default case keeps it. */
  function WrapPostgresError(e: Error): Error {
    var pg := FirstPg(e);
    if e.Nil? then Nil
    else if pg.PgError? then
      if pg.code == ForeignKeyViolation then Wrapped([ERR_FOREIGN_KEY])
      else if pg.code == UniqueViolation then Wrapped([ERR_UNIQUE])
      else if pg.code == CheckViolation then Wrapped([ERR_CHECK])
      else Wrapped([e])
    else e
  }

  predicate IsMappedCode(code: SqlState) {
    !code.OtherState?
  }

  /** The first driver error of the tree has a mapped code. */
  predicate Mapped(e: Error) {
    FirstPg(e).PgError? && IsMappedCode(FirstPg(e).code)
  }

  function SentinelOf(code: SqlState): Error
    requires IsMappedCode(code)
  {
    if code == ForeignKeyViolation then ERR_FOREIGN_KEY
    else if code == UniqueViolation then ERR_UNIQUE
    else ERR_CHECK
  }

  // ---- An independent reading of the tree walks ----

  /** Every node of the tree, parents before children, children left to right. */
  ghost function Preorder(e: Error): seq<Error>
    decreases e, 0
  {
    [e] + if e.Wrapped? then PreorderAll(e.causes) else []
  }

  ghost function PreorderAll(es: seq<Error>): seq<Error>
    decreases es, 1
  {
    if es == [] then [] else Preorder(es[0]) + PreorderAll(es[1..])
  }

  /** `pg` is the first driver error of the list, or Nil when the list has none. */
  ghost predicate IsFirstPgOf(nodes: seq<Error>, pg: Error) {
    if pg.Nil? then forall n :: n in nodes ==> !n.PgError?
    else pg.PgError? && exists i :: 0 <= i < |nodes| && nodes[i] == pg && forall j :: 0 <= j < i ==> !nodes[j].PgError?
  }

  lemma FirstPgConcat(a: seq<Error>, b: seq<Error>, pg: Error)
    requires (IsFirstPgOf(a, pg) && pg.PgError?) || (IsFirstPgOf(a, Nil) && IsFirstPgOf(b, pg))
    ensures IsFirstPgOf(a + b, pg)
  {
    if IsFirstPgOf(a, pg) && pg.PgError? {
      var i :| 0 <= i < |a| && a[i] == pg && forall j :: 0 <= j < i ==> !a[j].PgError?;
      assert (a + b)[i] == pg;
    } else if pg.PgError? {
      var i :| 0 <= i < |b| && b[i] == pg && forall j :: 0 <= j < i ==> !b[j].PgError?;
      assert (a + b)[|a| + i] == pg;
      assert forall j :: 0 <= j < |a| ==> a[j] in a;
    }
  }

  lemma {:induction false} FirstPgIsFirstInPreorder(e: Error)
    ensures IsFirstPgOf(Preorder(e), FirstPg(e))
    decreases e, 0
  {
    if e.Wrapped? {
      FirstPgAmongIsFirst(e.causes);
      FirstPgConcat([e], PreorderAll(e.causes), FirstPg(e));
    } else {
      assert Preorder(e) == [e];
      if e.PgError? { assert Preorder(e)[0] == e; }
    }
  }

  lemma {:induction false} FirstPgAmongIsFirst(es: seq<Error>)
    ensures IsFirstPgOf(PreorderAll(es), FirstPgAmong(es))
    decreases es, 1
  {
    if es != [] {
      FirstPgIsFirstInPreorder(es[0]);
      FirstPgAmongIsFirst(es[1..]);
      FirstPgConcat(Preorder(es[0]), PreorderAll(es[1..]), FirstPgAmong(es));
    }
  }

  lemma {:induction false} IsMeansOccursInTree(e: Error, target: Error)
    requires target.Sentinel?
    ensures Is(e, target) <==> target in Preorder(e)
    decreases e, 0
  {
    if e.Wrapped? {
      forall i | 0 <= i < |e.causes| ensures Is(e.causes[i], target) <==> target in Preorder(e.causes[i]) {
        IsMeansOccursInTree(e.causes[i], target);
      }
      InPreorderAll(e.causes, target);
    }
  }

  lemma {:induction false} InPreorderAll(es: seq<Error>, target: Error)
    ensures target in PreorderAll(es) <==> exists i :: 0 <= i < |es| && target in Preorder(es[i])
    decreases es, 1
  {
    if es != [] {
      InPreorderAll(es[1..], target);
      if i :| 0 <= i < |es| && target in Preorder(es[i]) {
        if i > 0 { assert es[i] == es[1..][i - 1]; }
      }
      if target in PreorderAll(es[1..]) {
        var i :| 0 <= i < |es[1..]| && target in Preorder(es[1..][i]);
        assert es[1..][i] == es[i + 1];
      }
    }
  }

  // ---- What wrapping does to the chain ----

  /** A mapped driver error becomes findable as exactly its sentinel and disappears itself. */
  lemma WrapMapped(e: Error, target: Error)
    requires Mapped(e) && target.Sentinel?
    ensures Is(WrapPostgresError(e), target) <==> target == SentinelOf(FirstPg(e).code)
    ensures FirstPg(WrapPostgresError(e)) == Nil
  {
    var w := WrapPostgresError(e);
    assert w == Wrapped([SentinelOf(FirstPg(e).code)]);
    assert w.causes[0] == SentinelOf(FirstPg(e).code);
    assert FirstPg(w) == FirstPgAmong(w.causes) == FirstPgAmong(w.causes[1..]);
  }

  /** Any other error keeps everything that could be found in it. */
  lemma WrapOther(e: Error, target: Error)
    requires !Mapped(e) && target.Sentinel?
    ensures Is(WrapPostgresError(e), target) <==> Is(e, target)
    ensures FirstPg(WrapPostgresError(e)) == FirstPg(e)
    ensures WrapPostgresError(e) == Nil <==> e == Nil
  {
    if FirstPg(e).PgError? {
      var w := WrapPostgresError(e);
      assert w.causes == [e] && w.causes[0] == e;
    }
  }

  /** Wrapping twice is wrapping once, except for a driver error with an unmapped code:
      the default branch adds a layer each time. */
  lemma WrapAgain(e: Error)
    ensures WrapPostgresError(WrapPostgresError(e)) == WrapPostgresError(e)
       <==> !(FirstPg(e).PgError? && !IsMappedCode(FirstPg(e).code))
  {
    if Mapped(e) {
      WrapMapped(e, ERR_UNIQUE);
    } else if FirstPg(e).PgError? {
      var w := WrapPostgresError(e);
      WrapOther(e, ERR_UNIQUE);
      assert w == Wrapped([e]) && WrapPostgresError(w) == Wrapped([w]);
      assert Wrapped([w]) != w;
    }
  }

  /** The predicate on the raw error and the sentinel test on the wrapped one agree if and only if
      the error has a mapped driver error first or did not carry that sentinel beforehand. */
  lemma ClassificationSurvivesWrapping(e: Error)
    ensures (IsUniqueConstraintErr(e) <==> Is(WrapPostgresError(e), ERR_UNIQUE))
       <==> Mapped(e) || !Is(e, ERR_UNIQUE)
    ensures (IsCheckConstraintErr(e) <==> Is(WrapPostgresError(e), ERR_CHECK))
       <==> Mapped(e) || !Is(e, ERR_CHECK)
    ensures (IsForeignKeyConstraintErr(e) <==> Is(WrapPostgresError(e), ERR_FOREIGN_KEY))
       <==> Mapped(e) || !Is(e, ERR_FOREIGN_KEY)
  {
    forall target | target in {ERR_UNIQUE, ERR_CHECK, ERR_FOREIGN_KEY}
      ensures Is(WrapPostgresError(e), target) <==>
              if Mapped(e) then target == SentinelOf(FirstPg(e).code) else Is(e, target)
    {
      if Mapped(e) { WrapMapped(e, target); } else { WrapOther(e, target); }
    }
  }
}
