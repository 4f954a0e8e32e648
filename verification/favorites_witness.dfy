/** The concrete counterexample behind the favorites finding (the add as
    written in favoriteController.js): re-adding a listed product under the
    upper-case spelling of its id stores it twice. It sits in a module of its
    own because it needs the text functions, which the favorites model does
    not import. */
module FavoritesWitness {
  import opened Base
  import opened ProductSchema
  import Catalog
  import Text
  import Favorites

  /** A concrete instance: favorites ["507f1f77bcf86cd799439011"] and a
      request for "507F1F77BCF86CD799439011", which the validator's
      isMongoId accepts and the mapper casts to the same ObjectId. The
      handler as written answers 200 and lists the product twice; the
      corrected add answers 400. */
  lemma UpperCaseReAddDuplicates()
    ensures var lib := UpperCaseLibrary();
      var stored := "507f1f77bcf86cd799439011";
      var catalog := [Product(stored, "Mug", 9.0, "A ceramic mug", "m.jpg", 5, 5)];
      var r := Favorites.AddAsWritten(lib, catalog, [stored], "507F1F77BCF86CD799439011");
      && lib.isMongoId("507F1F77BCF86CD799439011")
      && r == Ok([stored, stored])
      && !Favorites.NoDuplicates(r.value)
      && Favorites.Add(lib, catalog, [stored], "507F1F77BCF86CD799439011") == Err(Favorites.AlreadyInFavorites)
  {
    var lib := UpperCaseLibrary();
    var stored := "507f1f77bcf86cd799439011";
    var upper := "507F1F77BCF86CD799439011";
    var catalog := [Product(stored, "Mug", 9.0, "A ceramic mug", "m.jpg", 5, 5)];
    UpperCaseSpellsStored();
    assert Catalog.HasId(catalog, stored) by {
      assert catalog[0].id == stored;
    }
    assert Favorites.ProductExists(lib, catalog, upper);
    assert upper !in [stored] by {
      assert upper[3] != stored[3];
    }
    assert Favorites.AddAsWritten(lib, catalog, [stored], upper).Ok?;
    assert [stored] + [stored] == [stored, stored];
    assert Favorites.Add(lib, catalog, [stored], upper) == Err(Favorites.AlreadyInFavorites);
  }

  /** In UpperCaseLibrary the upper-case spelling casts, and to the stored
      lower-case spelling. */
  lemma UpperCaseSpellsStored()
    ensures UpperCaseLibrary().isMongoId("507F1F77BCF86CD799439011")
    ensures UpperCaseLibrary().castsToObjectId("507F1F77BCF86CD799439011")
    ensures UpperCaseLibrary().canonicalId("507F1F77BCF86CD799439011") == "507f1f77bcf86cd799439011"
  {
    var upper := "507F1F77BCF86CD799439011";
    var stored := "507f1f77bcf86cd799439011";
    assert forall i :: 0 <= i < |upper| ==> IsHexDigit(upper[i]);
    assert Text.Lower(upper) == stored by {
      forall i | 0 <= i < |upper|
        ensures Text.Lower(upper)[i] == stored[i]
      {
      }
    }
  }

  /** A library in which 24-digit hexadecimal strings of either case are
      ObjectIds, spelled canonically in lower case. */
  function UpperCaseLibrary(): Library {
    Library(
      s => true, s => true,
      s => |s| == 24 && forall i :: 0 <= i < |s| ==> IsHexDigit(s[i]),
      s => s,
      s => |s| == 24 && forall i :: 0 <= i < |s| ==> IsHexDigit(s[i]),
      s => Text.Lower(s))
  }

  predicate IsHexDigit(c: char) {
    '0' <= c <= '9' || 'a' <= c <= 'f' || 'A' <= c <= 'F'
  }
}
