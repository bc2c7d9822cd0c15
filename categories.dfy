/** The category table shown in the UI and the id-to-entry lookup built from it. */
module Categories {
  import opened Types

  datatype Category = Category(id: CategoryId, name: string, description: string, icon: string)

  const CATEGORIES: seq<Category> := [
    Category(Scheduling, "Scheduling", "Calendar management, meeting coordination, reminders", "Calendar"),
    Category(Freelance, "Freelance", "Task delegation, project management, hiring", "Briefcase"),
    Category(Purchasing, "Purchasing", "Price comparison, order placement, inventory", "ShoppingCart"),
    Category(Social, "Social", "Social media management, content posting, engagement", "Users"),
    Category(Research, "Research", "Web research, data gathering, analysis", "Search"),
    Category(Communication, "Communication", "Email drafting, messaging, notifications", "MessageSquare"),
    Category(Data, "Data", "Data processing, ETL, analytics, reporting", "Database"),
    Category(Development, "Development", "Code generation, debugging, deployment", "Code"),
    Category(Finance, "Finance", "Invoicing, expense tracking, payments", "DollarSign"),
    Category(Creative, "Creative", "Design, writing, content creation, media", "Palette"),
    Category(Other, "Other", "Miscellaneous capabilities", "Zap")
  ]

  /** The ids of a list of entries, in order. */
  function Ids(entries: seq<Category>): (ids: seq<CategoryId>)
    ensures |ids| == |entries|
    ensures forall i :: 0 <= i < |entries| ==> ids[i] == entries[i].id
  {
    seq(|entries|, i requires 0 <= i < |entries| => entries[i].id)
  }

  predicate DistinctIds(entries: seq<Category>)
  {
    forall i, j :: 0 <= i < j < |entries| ==> entries[i].id != entries[j].id
  }

  /** `Object.fromEntries(entries.map(c => [c.id, c]))`: a later entry overwrites an earlier one. */
  function FromEntries(entries: seq<Category>): (m: map<CategoryId, Category>)
    ensures m.Keys == set i | 0 <= i < |entries| :: entries[i].id
  {
    if entries == [] then map[]
    else
      var init := entries[..|entries| - 1];
      var last := entries[|entries| - 1];
      var m0 := FromEntries(init);
      assert m0.Keys + {last.id} == set i | 0 <= i < |entries| :: entries[i].id by {
        forall x | x in set i | 0 <= i < |entries| :: entries[i].id
          ensures x in m0.Keys + {last.id}
        {
          var i :| 0 <= i < |entries| && entries[i].id == x;
          if i < |entries| - 1 { assert init[i].id == x; }
        }
      }
      m0[last.id := last]
  }

  const CATEGORY_MAP: map<CategoryId, Category> := FromEntries(CATEGORIES)

  /** The table has eleven entries with pairwise distinct ids. */
  lemma CategoryTableShape()
    ensures |CATEGORIES| == 11
    ensures DistinctIds(CATEGORIES)
  {
  }

  /** Every category id has an entry in the table. */
  lemma CategoryTableCovers(c: CategoryId)
    ensures c in Ids(CATEGORIES)
  {
    var ids := Ids(CATEGORIES);
    match c
    case Scheduling => assert ids[0] == c;
    case Freelance => assert ids[1] == c;
    case Purchasing => assert ids[2] == c;
    case Social => assert ids[3] == c;
    case Research => assert ids[4] == c;
    case Communication => assert ids[5] == c;
    case Data => assert ids[6] == c;
    case Development => assert ids[7] == c;
    case Finance => assert ids[8] == c;
    case Creative => assert ids[9] == c;
    case Other => assert ids[10] == c;
  }

  /** With distinct ids, looking an entry's id up in `FromEntries` gives back that entry. */
  lemma {:induction false} FromEntriesLookup(entries: seq<Category>, k: nat)
    requires DistinctIds(entries)
    requires k < |entries|
    ensures entries[k].id in FromEntries(entries)
    ensures FromEntries(entries)[entries[k].id] == entries[k]
    decreases |entries|
  {
    var n := |entries|;
    if k < n - 1 {
      var init := entries[..n - 1];
      assert DistinctIds(init);
      assert init[k] == entries[k];
      FromEntriesLookup(init, k);
      assert entries[k].id != entries[n - 1].id;
    }
  }

  /** `CATEGORY_MAP[c.id] == c` for every entry of the table. */
  lemma CategoryMapLookup(k: nat)
    requires k < |CATEGORIES|
    ensures CATEGORIES[k].id in CATEGORY_MAP
    ensures CATEGORY_MAP[CATEGORIES[k].id] == CATEGORIES[k]
  {
    CategoryTableShape();
    FromEntriesLookup(CATEGORIES, k);
  }

  /** The map is total over the category ids. */
  lemma CategoryMapTotal(c: CategoryId)
    ensures c in CATEGORY_MAP && CATEGORY_MAP[c].id == c
  {
    CategoryTableCovers(c);
    var ids := Ids(CATEGORIES);
    var k :| 0 <= k < |ids| && ids[k] == c;
    CategoryMapLookup(k);
  }
}
