/** The ingredient catalog: list every row, append a row. */
module IngredientQuery {
  import opened Store

  /** SELECT id, name, image, time_interval, requirement FROM ingredient: every
      row once, in table order. */
  function GetIngredients(db: Db): (list: seq<Ingredient>)
    ensures |list| == |db.ingredients|
    ensures forall ing :: ing in list <==> ing in db.ingredients
    ensures UniqueKeys(db) ==> forall i, j :: 0 <= i < j < |list| ==> list[i].id != list[j].id
  {
    db.ingredients
  }

  /** INSERT INTO ingredient (name, image, time_interval, requirement); `id` is
      the auto-increment key the server assigns. Statements: 0 the insert,
      1 LastInsertId. A failure of step 1 comes after the row is written, so
      the row stays although an error is returned. */
  function AddIngredient(db: Db, name: string, image: string, interval: int, requirement: string, id: int,
                         fault: Fault): (out: (Result<int>, Db))
    requires id !in IngredientIds(db)
    ensures fault.Hits(0) ==> out == (Err(DbFailure), db)
    ensures out.0.Ok? <==> !fault.Hits(1)
    ensures out.0.Ok? ==> out.0.value == id
    ensures out.0.Err? ==> out.0.error == DbFailure
    ensures !fault.Hits(0) ==>
              && |out.1.ingredients| == |db.ingredients| + 1
              && out.1.ingredients[..|db.ingredients|] == db.ingredients
              && out.1.ingredients[|db.ingredients|] == Ingredient(id, name, image, interval, requirement)
              && out.1 == db.(ingredients := out.1.ingredients)
    ensures UniqueKeys(db) ==> UniqueKeys(out.1)
  {
    if fault.Hits(0) then (Err(DbFailure), db)
    else
      var row := Ingredient(id, name, image, interval, requirement);
      assert forall i :: 0 <= i < |db.ingredients| ==> db.ingredients[i].id != id by {
        forall i | 0 <= i < |db.ingredients| ensures db.ingredients[i].id != id {
          assert db.ingredients[i] in db.ingredients;
        }
      }
      var after := db.(ingredients := db.ingredients + [row]);
      if fault.Hits(1) then (Err(DbFailure), after) else (Ok(id), after)
  }

  /** After AddIngredient the listing is the old listing followed by the new
      row, with its fields as given, unless the insert itself failed; a failed
      LastInsertId still lists the row. */
  lemma AddThenList(db: Db, name: string, image: string, interval: int, requirement: string, id: int, fault: Fault)
    requires id !in IngredientIds(db)
    ensures GetIngredients(AddIngredient(db, name, image, interval, requirement, id, fault).1)
         == if fault.Hits(0) then GetIngredients(db)
            else GetIngredients(db) + [Ingredient(id, name, image, interval, requirement)]
  {
    var after := AddIngredient(db, name, image, interval, requirement, id, fault).1;
    if !fault.Hits(0) {
      assert after.ingredients == after.ingredients[..|db.ingredients|] + [after.ingredients[|db.ingredients|]];
    }
  }
}
