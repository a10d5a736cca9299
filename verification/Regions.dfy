/** Remapping an endpoint's or service's regions together with a field update, with compensation. */
module Regions {
  import opened Wrappers

  type Region = string

  /** What the database does: which regions exist, and for which regions adding a mapping raises. */
  datatype Database = Database(regions: set<Region>, addFails: set<Region>)

  class Mapped {
    const updateable: set<string>
    var regions: set<Region>
    var fields: map<string, string>

    constructor(updateable: set<string>, regions: set<Region>, fields: map<string, string>)
      requires updateable <= fields.Keys
      ensures Valid() && this.updateable == updateable && this.regions == regions && this.fields == fields
    {
      this.updateable, this.regions, this.fields := updateable, regions, fields;
    }

    /** Every updateable field is an attribute of the object. */
    predicate Valid()
      reads this
    {
      updateable <= fields.Keys
    }

    /** `_try_unmap_regions`, where deleting an existing mapping succeeds and any other error is ignored. */
    method TryUnmap(gone: set<Region>)
      modifies this`regions
      ensures regions == old(regions) - gone
    {
      var todo := gone;
      while todo != {}
        invariant regions == old(regions) - (gone - todo) && todo <= gone
      {
        var r :| r in todo;
        regions := regions - {r};
        todo := todo - {r};
      }
    }

    /** Add mappings one by one in any order; on the first that raises, take back those just added. */
    method MapAll(db: Database, wanted: set<Region>) returns (ok: bool)
      requires wanted !! regions
      modifies this`regions
      ensures ok <==> wanted !! db.addFails
      ensures regions == if ok then old(regions) + wanted else old(regions)
    {
      var todo, added := wanted, {};
      while todo != {}
        invariant added + todo == wanted && added !! todo && added !! db.addFails
        invariant regions == old(regions) + added
      {
        var r :| r in todo;
        if r in db.addFails {
          TryUnmap(added);
          return false;
        }
        regions := regions + {r};
        added, todo := added + {r}, todo - {r};
      }
      ok := true;
    }

    /** `_update_sqlalchemy_object_fields`: refuse as a whole, or set field after field. */
    method UpdateFields(values: map<string, string>) returns (ok: bool)
      requires Valid()
      modifies this`fields
      ensures Valid()
      ensures ok <==> values.Keys <= updateable
      ensures fields == if ok then old(fields) + values else old(fields)
    {
      if !(values.Keys <= updateable) {
        return false;
      }
      var todo := values.Keys;
      while todo != {}
        invariant todo <= values.Keys && Valid()
        invariant fields == old(fields) + (values - todo)
      {
        var k :| k in todo;
        fields := fields[k := values[k]];
        todo := todo - {k};
        assert values - todo == (values - (todo + {k}))[k := values[k]];
      }
      assert values - {} == values;
      ok := true;
    }

    /** All or nothing: on success the mapped regions are exactly the desired ones and the fields are set;
        on any failure, in lookup, adding or field update, both are as they were. */
    method Update(db: Database, desired: Option<seq<Region>>, values: map<string, string>) returns (ok: bool)
      requires Valid()
      modifies this
      ensures Valid()
      ensures ok <==>
        && values.Keys <= updateable
        && (desired.Some? ==> forall r <- desired.value :: r in db.regions && (r in old(regions) || r !in db.addFails))
      ensures ok ==>
                && regions == (if desired.Some? then set r <- desired.value else old(regions))
                && fields == old(fields) + values
      ensures !ok ==> regions == old(regions) && fields == old(fields)
    {
      var toMap, toUnmap := {}, {};
      if desired.Some? {
        for n := 0 to |desired.value|
          invariant forall r <- desired.value[..n] :: r in db.regions
          invariant regions == old(regions) && fields == old(fields)
        {
          if desired.value[n] !in db.regions {
            return false;
          }
        }
        var wanted := set r <- desired.value;
        toMap, toUnmap := wanted - regions, regions - wanted;
        var mapped := MapAll(db, toMap);
        if !mapped {
          return false;
        }
      }
      var updated := UpdateFields(values);
      if !updated {
        TryUnmap(toMap);
        return false;
      }
      TryUnmap(toUnmap);
      ok := true;
    }
  }
}
