/**
 * The category/field taxonomy: a tree of categories, each holding an ordered list of
 * fields and an ordered list of subcategories. The names of a category's direct fields
 * and direct subcategories share one namespace.
 */
module Taxonomy {
  import Seqs
  import opened Wrappers

  /** The recoverable errors of the append and rename operations. */
  datatype Error =
    | DuplicateName                // a sibling of the same kind already has the name
    | NameCollidesWithSubcategory  // a field name would clash with a subcategory's
    | NameCollidesWithField        // a subcategory name would clash with a field's
    | CreatesCycle                 // (checked append only) the receiver lies below the new subcategory

  /**
   * A schema slot. Only what the taxonomy and the contacts use is modelled: the name,
   * which only the owning category's rename changes, and the identity key under which
   * a contact stores its value for the field.
   */
  class Field {
    const id: nat
    var name: string

    constructor (id: nat, name: string)
      ensures this.id == id && this.name == name
    {
      this.id := id;
      this.name := name;
    }

    method SetName(name: string)
      modifies this`name
      ensures this.name == name
    {
      this.name := name;
    }
  }

  /** The names of fs, position by position. */
  function FieldNames(fs: seq<Field>): (r: seq<string>)
    reads fs
    ensures |r| == |fs| && forall i :: 0 <= i < |fs| ==> r[i] == fs[i].name
  {
    seq(|fs|, i reads fs requires 0 <= i < |fs| => fs[i].name)
  }

  /** The names of cs, position by position. */
  function CategoryNames(cs: seq<Category>): (r: seq<string>)
    reads cs`name
    ensures |r| == |cs| && forall i {:trigger r[i]} :: 0 <= i < |cs| ==> r[i] == cs[i].name
  {
    if cs == [] then [] else CategoryNames(cs[..|cs| - 1]) + [cs[|cs| - 1].name]
  }

  /** The direct fields of each of cats in turn, each category's in its list order. */
  function FieldsOf(cats: seq<Category>): (r: seq<Field>)
    reads cats`fields
    ensures cats == [] ==> r == []
    ensures forall i :: 0 <= i < |cats| ==> |cats[i].fields| <= |r|
  {
    if cats == [] then [] else FieldsOf(cats[..|cats| - 1]) + cats[|cats| - 1].fields
  }

  class Category {
    var name: string
    var description: string
    var fields: seq<Field>
    var subcategories: seq<Category>

    /**
     * The subtree rooted here is finite and acyclic, and its categories lie in nodes:
     * every step down to a subcategory leaves the category it comes from behind, so no
     * path returns to a category. Sharing a subcategory between two parents is not
     * excluded; only a cycle is, on which the Go walks would not end.
     */
    ghost predicate Tree(nodes: set<Category>)
      reads nodes`subcategories
      decreases nodes
    {
      && this in nodes
      && forall c :: c in subcategories ==> c in nodes - {this} && c.Tree(nodes - {this})
    }

    /** The names of the direct fields followed by those of the direct subcategories. */
    function Names(): seq<string>
      reads this`fields, this`subcategories, fields, subcategories`name
    {
      FieldNames(fields) + CategoryNames(subcategories)
    }

    /** The namespace invariant: no name occurs twice among the direct fields and subcategories. */
    predicate NamesDistinct()
      reads this`fields, this`subcategories, fields, subcategories`name
    {
      Seqs.Distinct(Names())
    }

    /** NewCategory: naming and describing cannot fail, so neither can construction. */
    constructor (name: string, description: string)
      ensures this.name == name && this.description == description
      ensures fields == [] && subcategories == []
      ensures Tree({this}) && NamesDistinct()
    {
      new;
      SetName(name);
      SetDescription(description);
      fields := [];
      subcategories := [];
    }

    method SetDescription(description: string)
      modifies this`description
      ensures this.description == description
    {
      this.description := description;
    }

    method SetName(name: string)
      modifies this`name
      ensures this.name == name
    {
      this.name := name;
    }

    /** The first direct field named name, or null when no direct field has that name. */
    function GetField(name: string): (field: Field?)
      reads this`fields, fields
      ensures var k := Seqs.IndexOf(FieldNames(fields), name);
              field == if k < |fields| then fields[k] else null
      ensures field == null <==> name !in FieldNames(fields)
    {
      FirstField(fields, name)
    }

    /** The first direct subcategory named name, or null when none has that name. */
    function GetSubcategory(name: string): (category: Category?)
      reads this`subcategories, subcategories`name
      ensures var k := Seqs.IndexOf(CategoryNames(subcategories), name);
              category == if k < |subcategories| then subcategories[k] else null
      ensures category == null <==> name !in CategoryNames(subcategories)
    {
      FirstCategory(subcategories, name)
    }

    /**
     * Append the field, unless its name is already taken by a direct field or a direct
     * subcategory; the duplicate check comes first.
     */
    method AppendField(field: Field) returns (err: Option<Error>)
      modifies this`fields
      ensures err == if field.name in old(FieldNames(fields)) then Some(DuplicateName)
                     else if field.name in CategoryNames(subcategories) then Some(NameCollidesWithSubcategory)
                     else None
      ensures fields == if err.None? then old(fields) + [field] else old(fields)
      ensures old(NamesDistinct()) ==> NamesDistinct()
    {
      if GetField(field.name) != null {
        return Some(DuplicateName);
      }
      if GetSubcategory(field.name) != null {
        return Some(NameCollidesWithSubcategory);
      }
      PushField(field);
      return None;
    }

    /** The append itself, once the name is known to be free. */
    method PushField(field: Field)
      requires field.name !in FieldNames(fields) && field.name !in CategoryNames(subcategories)
      modifies this`fields
      ensures fields == old(fields) + [field]
      ensures old(NamesDistinct()) ==> NamesDistinct()
    {
      if NamesDistinct() {
        NamespaceAfterAppendField(fields, subcategories, field);
      }
      fields := fields + [field];
    }

    /**
     * Append the subcategory, unless its name is already taken by a direct subcategory
     * or a direct field; the duplicate check comes first.
     */
    method AppendSubcategory(category: Category) returns (err: Option<Error>)
      modifies this`subcategories
      ensures err == if category.name in old(CategoryNames(subcategories)) then Some(DuplicateName)
                     else if category.name in FieldNames(fields) then Some(NameCollidesWithField)
                     else None
      ensures subcategories == if err.None? then old(subcategories) + [category] else old(subcategories)
      ensures old(NamesDistinct()) ==> NamesDistinct()
      ensures forall nodes: set<Category> ::
                old(allocated(nodes)) && old(Tree(nodes)) && old(category.Tree(nodes - {this})) ==> Tree(nodes)
    {
      if GetSubcategory(category.name) != null {
        return Some(DuplicateName);
      }
      if GetField(category.name) != null {
        return Some(NameCollidesWithField);
      }
      PushSubcategory(category);
      return None;
    }

    /** The append itself, once the name is known to be free. */
    method PushSubcategory(category: Category)
      requires category.name !in CategoryNames(subcategories) && category.name !in FieldNames(fields)
      modifies this`subcategories
      ensures subcategories == old(subcategories) + [category]
      ensures old(NamesDistinct()) ==> NamesDistinct()
      ensures forall nodes: set<Category> ::
                old(allocated(nodes)) && old(Tree(nodes)) && old(category.Tree(nodes - {this})) ==> Tree(nodes)
    {
      if NamesDistinct() {
        NamespaceAfterAppendSubcategory(fields, subcategories, category);
      }
      subcategories := subcategories + [category];
    }

    /** Remove the field by reference; nothing happens when it is not a direct field. */
    method RemoveField(field: Field)
      requires Seqs.AtMostOnce(fields, field)
      modifies this`fields
      ensures fields == Seqs.Removed(old(fields), field)
      ensures old(NamesDistinct()) ==> NamesDistinct()
    {
      ghost var fieldNames, categoryNames := FieldNames(fields), CategoryNames(subcategories);
      fields := Seqs.RemoveByIdentity(fields, field);
      if old(NamesDistinct()) {
        assert FieldNames(old(fields)) == fieldNames;
        assert CategoryNames(subcategories) == categoryNames;
        NamespaceAfterRemoveField(old(fields), subcategories, field);
      }
    }

    /** Remove the subcategory by reference; nothing happens when it is not a direct one. */
    method RemoveSubcategory(category: Category)
      requires Seqs.AtMostOnce(subcategories, category)
      modifies this`subcategories
      ensures subcategories == Seqs.Removed(old(subcategories), category)
      ensures old(NamesDistinct()) ==> NamesDistinct()
      ensures forall nodes: set<Category> :: old(allocated(nodes)) && old(Tree(nodes)) ==> Tree(nodes)
    {
      ghost var fieldNames, categoryNames := FieldNames(fields), CategoryNames(subcategories);
      subcategories := Seqs.RemoveByIdentity(subcategories, category);
      if old(NamesDistinct()) {
        assert FieldNames(fields) == fieldNames;
        assert CategoryNames(old(subcategories)) == categoryNames;
        NamespaceAfterRemoveSubcategory(fields, old(subcategories), category);
      }
      Seqs.RemovedSubset(old(subcategories), category);
      forall nodes: set<Category> | old(allocated(nodes)) && old(Tree(nodes)) ensures Tree(nodes) {
        TreeAfterShrink(nodes);
      }
    }

    /**
     * Take the field at from out and reinsert it at dest of the shortened list, as the
     * slice code does it; an index out of range is a panic in Go. Only for the last
     * position is the result the intended remove-then-reinsert (Seqs.MovedAsWrittenToEnd).
     */
    method MoveField(from: nat, dest: nat)
      requires from < |fields| && dest < |fields|
      requires Seqs.AtMostOnce(fields, fields[from])
      modifies this`fields
      ensures fields == Seqs.MovedAsWritten(old(fields), from, dest)
      ensures dest == |fields| - 1 ==> fields == Seqs.Moved(old(fields), from, dest)
      ensures old(NamesDistinct()) && dest == |fields| - 1 ==> NamesDistinct()
    {
      ghost var fieldNames, categoryNames := FieldNames(fields), CategoryNames(subcategories);
      Seqs.MovedAsWrittenToEnd(fields, from);
      var field := fields[from];
      Seqs.RemovedAtFirst(fields, from, field);
      RemoveField(field);
      fields := Seqs.InsertAsWritten(fields, dest, field);
      assert fields == Seqs.MovedAsWritten(old(fields), from, dest);
      if dest == |fields| - 1 {
        assert fields == Seqs.RemoveAt(old(fields), from) + [field];
        if old(NamesDistinct()) {
          assert FieldNames(old(fields)) == fieldNames;
          assert CategoryNames(subcategories) == categoryNames;
          NamespaceAfterMoveFieldToEnd(old(fields), subcategories, from);
        }
      }
    }

    /** MoveField on the subcategory list. */
    method MoveSubcategory(from: nat, dest: nat)
      requires from < |subcategories| && dest < |subcategories|
      requires Seqs.AtMostOnce(subcategories, subcategories[from])
      modifies this`subcategories
      ensures subcategories == Seqs.MovedAsWritten(old(subcategories), from, dest)
      ensures dest == |subcategories| - 1 ==> subcategories == Seqs.Moved(old(subcategories), from, dest)
      ensures old(NamesDistinct()) && dest == |subcategories| - 1 ==> NamesDistinct()
      ensures forall nodes: set<Category> :: old(allocated(nodes)) && old(Tree(nodes)) ==> Tree(nodes)
    {
      ghost var fieldNames, categoryNames := FieldNames(fields), CategoryNames(subcategories);
      Seqs.MovedAsWrittenToEnd(subcategories, from);
      var category := subcategories[from];
      Seqs.RemovedAtFirst(subcategories, from, category);
      RemoveSubcategory(category);
      subcategories := Seqs.InsertAsWritten(subcategories, dest, category);
      assert subcategories == Seqs.MovedAsWritten(old(subcategories), from, dest);
      if dest == |subcategories| - 1 {
        assert subcategories == Seqs.RemoveAt(old(subcategories), from) + [category];
        if old(NamesDistinct()) {
          assert FieldNames(fields) == fieldNames;
          assert CategoryNames(old(subcategories)) == categoryNames;
          NamespaceAfterMoveSubcategoryToEnd(fields, old(subcategories), from);
        }
      }
      Seqs.MovedAsWrittenSubset(old(subcategories), from, dest);
      forall nodes: set<Category> | old(allocated(nodes)) && old(Tree(nodes)) ensures Tree(nodes) {
        TreeAfterShrink(nodes);
      }
    }

    /**
     * Rename the first direct field named from to to, keeping its position. The clash
     * checks come first; only once to is known to be free does a missing from matter
     * (a panic in Go, excluded by the precondition).
     */
    method RenameField(from: string, to: string) returns (err: Option<Error>)
      requires to in FieldNames(fields) || to in CategoryNames(subcategories) || from in FieldNames(fields)
      modifies fields
      ensures err == if to in old(FieldNames(fields)) then Some(DuplicateName)
                     else if to in CategoryNames(subcategories) then Some(NameCollidesWithSubcategory)
                     else None
      ensures err.Some? ==> forall f :: f in fields ==> f.name == old(f.name)
      ensures err.None? ==>
                var target := old(fields[Seqs.IndexOf(FieldNames(fields), from)]);
                forall f :: f in fields ==> f.name == if f == target then to else old(f.name)
      ensures err.None? && old(NamesDistinct()) ==>
                FieldNames(fields) == old(FieldNames(fields))[Seqs.IndexOf(old(FieldNames(fields)), from) := to]
      ensures old(NamesDistinct()) ==> NamesDistinct()
    {
      if GetField(to) != null {
        return Some(DuplicateName);
      }
      if GetSubcategory(to) != null {
        return Some(NameCollidesWithSubcategory);
      }
      var field := GetField(from);
      RelabelField(Seqs.IndexOf(FieldNames(fields), from), field, to);
      return None;
    }

    /** The rename itself: field, the direct field at position k, takes the free name to. */
    method RelabelField(ghost k: nat, field: Field, to: string)
      requires k < |fields| && fields[k] == field
      requires to !in FieldNames(fields) && to !in CategoryNames(subcategories)
      modifies fields
      ensures forall f :: f in fields ==> f.name == if f == field then to else old(f.name)
      ensures old(NamesDistinct()) ==> FieldNames(fields) == old(FieldNames(fields))[k := to]
      ensures old(NamesDistinct()) ==> NamesDistinct()
    {
      ghost var fieldNames, categoryNames := FieldNames(fields), CategoryNames(subcategories);
      ghost var separate := forall i :: 0 <= i < |fields| && i != k ==> fields[i] != field;
      if NamesDistinct() {
        DistinctNamesDistinctEntries(fields, subcategories);
      }
      field.SetName(to);
      assert CategoryNames(subcategories) == categoryNames;
      if separate {
        assert FieldNames(fields) == fieldNames[k := to];
      }
      if old(NamesDistinct()) {
        DistinctRename(fieldNames, categoryNames, k, to);
      }
    }

    /** RenameField on the subcategory list, with NameCollidesWithField as the cross-kind clash. */
    method RenameSubcategory(from: string, to: string) returns (err: Option<Error>)
      requires to in CategoryNames(subcategories) || to in FieldNames(fields) || from in CategoryNames(subcategories)
      modifies subcategories`name
      ensures err == if to in old(CategoryNames(subcategories)) then Some(DuplicateName)
                     else if to in old(FieldNames(fields)) then Some(NameCollidesWithField)
                     else None
      ensures err.Some? ==> forall c :: c in subcategories ==> c.name == old(c.name)
      ensures err.None? ==>
                var target := old(subcategories[Seqs.IndexOf(CategoryNames(subcategories), from)]);
                forall c :: c in subcategories ==> c.name == if c == target then to else old(c.name)
      ensures err.None? && old(NamesDistinct()) ==>
                CategoryNames(subcategories)
                == old(CategoryNames(subcategories))[Seqs.IndexOf(old(CategoryNames(subcategories)), from) := to]
      ensures old(NamesDistinct()) ==> NamesDistinct()
      ensures forall nodes: set<Category> :: old(allocated(nodes)) && old(Tree(nodes)) ==> Tree(nodes)
    {
      if GetSubcategory(to) != null {
        return Some(DuplicateName);
      }
      if GetField(to) != null {
        return Some(NameCollidesWithField);
      }
      var category := GetSubcategory(from);
      RelabelSubcategory(Seqs.IndexOf(CategoryNames(subcategories), from), category, to);
      return None;
    }

    /** The rename itself: category, the direct subcategory at position k, takes the free name to. */
    method RelabelSubcategory(ghost k: nat, category: Category, to: string)
      requires k < |subcategories| && subcategories[k] == category
      requires to !in CategoryNames(subcategories) && to !in FieldNames(fields)
      modifies subcategories`name
      ensures forall c :: c in subcategories ==> c.name == if c == category then to else old(c.name)
      ensures old(NamesDistinct()) ==> CategoryNames(subcategories) == old(CategoryNames(subcategories))[k := to]
      ensures old(NamesDistinct()) ==> NamesDistinct()
      ensures forall nodes: set<Category> :: old(allocated(nodes)) && old(Tree(nodes)) ==> Tree(nodes)
    {
      ghost var fieldNames, categoryNames := FieldNames(fields), CategoryNames(subcategories);
      ghost var separate := forall i :: 0 <= i < |subcategories| && i != k ==> subcategories[i] != category;
      if NamesDistinct() {
        DistinctNamesDistinctEntries(fields, subcategories);
      }
      category.SetName(to);
      assert FieldNames(fields) == fieldNames;
      if separate {
        assert CategoryNames(subcategories) == categoryNames[k := to];
      }
      if old(NamesDistinct()) {
        DistinctRenameRight(fieldNames, categoryNames, k, to);
      }
    }

    /**
     * AppendSubcategory with the check the Go code lacks: besides the two name checks, a
     * category whose subtree holds the receiver is refused, so an append never closes a
     * cycle and the walks stay defined.
     */
    method AppendSubcategoryChecked(category: Category, ghost nodes: set<Category>) returns (err: Option<Error>)
      requires Tree(nodes) && category.Tree(nodes)
      modifies this`subcategories
      ensures err == if category.name in old(CategoryNames(subcategories)) then Some(DuplicateName)
                     else if category.name in FieldNames(fields) then Some(NameCollidesWithField)
                     else if this in old(category.PreOrder(nodes)) then Some(CreatesCycle)
                     else None
      ensures subcategories == if err.None? then old(subcategories) + [category] else old(subcategories)
      ensures old(NamesDistinct()) ==> NamesDistinct()
      ensures Tree(nodes)
    {
      if GetSubcategory(category.name) != null {
        return Some(DuplicateName);
      }
      if GetField(category.name) != null {
        return Some(NameCollidesWithField);
      }
      var below := category.WalkCategories(nodes);
      if this in below {
        return Some(CreatesCycle);
      }
      category.TreeWithout(nodes, this);
      PushSubcategory(category);
      return None;
    }

    /**
     * The tree stays a tree when this node's subcategory list changes to one whose
     * members were all subcategories before, and nothing else changes.
     */
    twostate lemma TreeAfterShrink(nodes: set<Category>)
      requires old(Tree(nodes))
      requires forall c :: c in subcategories ==> c in old(subcategories)
      requires unchanged(nodes - {this})
      ensures Tree(nodes)
    {
      forall c | c in subcategories ensures c in nodes - {this} && c.Tree(nodes - {this}) {
        assert c in old(subcategories);
      }
    }

    /** A tree over some nodes is a tree over any larger set of nodes. */
    lemma {:induction false} TreeMonotone(a: set<Category>, b: set<Category>)
      requires Tree(a) && a <= b
      ensures Tree(b)
      decreases a
    {
      forall c | c in subcategories ensures c in b - {this} && c.Tree(b - {this}) {
        c.TreeMonotone(a - {this}, b - {this});
      }
    }

    /** The categories of the tree rooted here in pre-order. */
    ghost function PreOrder(nodes: set<Category>): (r: seq<Category>)
      requires Tree(nodes)
      reads nodes`subcategories
      ensures |r| > 0 && r[0] == this
      ensures forall c :: c in r ==> c in nodes
      ensures this !in r[1..]
      decreases nodes, 1
    {
      [this] + Subtrees(nodes, |subcategories|)
    }

    /** The pre-orders of the first k subcategories, one after the other. */
    ghost function Subtrees(nodes: set<Category>, k: nat): (r: seq<Category>)
      requires Tree(nodes) && k <= |subcategories|
      reads nodes`subcategories
      ensures forall c :: c in r ==> c in nodes - {this}
      decreases nodes, 0, k
    {
      if k == 0 then [] else Subtrees(nodes, k - 1) + subcategories[k - 1].PreOrder(nodes - {this})
    }

    /**
     * WalkCategories, with the visits it makes returned in order: the receiver, then the
     * whole subtree of each subcategory before the next one (pre-order, depth first).
     * The ghost nodes only bound the recursion; any set holding the tree will do.
     */
    method WalkCategories(ghost nodes: set<Category>) returns (visited: seq<Category>)
      requires Tree(nodes)
      ensures visited == PreOrder(nodes)
      decreases nodes
    {
      visited := [this];
      for i := 0 to |subcategories|
        invariant visited == [this] + Subtrees(nodes, i)
      {
        var subtree := subcategories[i].WalkCategories(nodes - {this});
        visited := visited + subtree;
      }
    }

    /** WalkFields: the direct fields of each category WalkCategories visits, in that order. */
    method WalkFields(ghost nodes: set<Category>) returns (visited: seq<Field>)
      requires Tree(nodes)
      ensures visited == FieldsOf(PreOrder(nodes))
    {
      var categories := WalkCategories(nodes);
      visited := [];
      for i := 0 to |categories|
        invariant visited == FieldsOf(categories[..i])
      {
        var category := categories[i];
        for j := 0 to |category.fields|
          invariant visited == FieldsOf(categories[..i]) + category.fields[..j]
        {
          visited := visited + [category.fields[j]];
        }
        assert categories[..i + 1][..i] == categories[..i];
      }
      assert categories[..|categories|] == categories;
    }

    /** Every category the walks visit is itself the root of a tree over the same nodes. */
    lemma {:induction false} PreOrderTrees(nodes: set<Category>)
      requires Tree(nodes)
      ensures forall c :: c in PreOrder(nodes) ==> c.Tree(nodes)
      decreases nodes, 1
    {
      SubtreesTrees(nodes, |subcategories|);
      forall c | c in PreOrder(nodes) ensures c.Tree(nodes) {
        if c != this {
          c.TreeMonotone(nodes - {this}, nodes);
        }
      }
    }

    lemma {:induction false} SubtreesTrees(nodes: set<Category>, k: nat)
      requires Tree(nodes) && k <= |subcategories|
      ensures forall c :: c in Subtrees(nodes, k) ==> c.Tree(nodes - {this})
      decreases nodes, 0, k
    {
      if k > 0 {
        SubtreesTrees(nodes, k - 1);
        subcategories[k - 1].PreOrderTrees(nodes - {this});
      }
    }

    /** Each subcategory's whole pre-order lies inside the pre-orders of the first k. */
    lemma {:induction false} SubtreesCover(nodes: set<Category>, k: nat)
      requires Tree(nodes) && k <= |subcategories|
      ensures forall i, c :: 0 <= i < k && c in subcategories[i].PreOrder(nodes - {this}) ==> c in Subtrees(nodes, k)
      decreases k
    {
      if k > 0 {
        SubtreesCover(nodes, k - 1);
      }
    }

    /** Leaving out of nodes a category the walk never reaches keeps the tree a tree. */
    lemma {:induction false} TreeWithout(nodes: set<Category>, x: Category)
      requires Tree(nodes) && x !in PreOrder(nodes)
      ensures Tree(nodes - {x})
      decreases nodes
    {
      SubtreesCover(nodes, |subcategories|);
      forall c | c in subcategories
        ensures c in (nodes - {x}) - {this} && c.Tree((nodes - {x}) - {this})
      {
        var i :| 0 <= i < |subcategories| && subcategories[i] == c;
        assert x !in c.PreOrder(nodes - {this});
        c.TreeWithout(nodes - {this}, x);
        assert (nodes - {this}) - {x} == (nodes - {x}) - {this};
      }
    }

    /** The pre-orders of the first j subcategories are a prefix of those of the first k. */
    lemma {:induction false} SubtreesPrefix(nodes: set<Category>, j: nat, k: nat)
      requires Tree(nodes) && j <= k <= |subcategories|
      ensures Subtrees(nodes, j) <= Subtrees(nodes, k)
      decreases k
    {
      if j < k {
        SubtreesPrefix(nodes, j, k - 1);
      }
    }

    /**
     * The walk is depth first: the first subcategory's own first subcategory is visited
     * right after it, before the receiver's second subcategory.
     */
    lemma DepthFirst(nodes: set<Category>)
      requires Tree(nodes) && |subcategories| > 0 && |subcategories[0].subcategories| > 0
      ensures |PreOrder(nodes)| > 2
      ensures PreOrder(nodes)[1] == subcategories[0]
      ensures PreOrder(nodes)[2] == subcategories[0].subcategories[0]
    {
      var s, rest := subcategories[0], nodes - {this};
      SubtreesPrefix(nodes, 1, |subcategories|);
      s.SubtreesPrefix(rest, 1, |s.subcategories|);
      assert Subtrees(nodes, 1) == s.PreOrder(rest);
      assert s.Subtrees(rest, 1) == s.subcategories[0].PreOrder(rest - {s});
    }
  }

  /**
   * The walk order on a small tree: a root with subcategories [c1, c2], where c1 has the
   * one subcategory c1a, is visited as [root, c1, c1a, c2]; breadth first would put c2
   * before c1a.
   */
  lemma PreOrderExample(root: Category, c1: Category, c1a: Category, c2: Category, nodes: set<Category>)
    requires root.Tree(nodes) && root.subcategories == [c1, c2]
    requires c1.subcategories == [c1a] && c1a.subcategories == [] && c2.subcategories == []
    ensures root.PreOrder(nodes) == [root, c1, c1a, c2]
  {
    var rest := nodes - {root};
    assert c1 in root.subcategories && c2 in root.subcategories;
    assert c1a in c1.subcategories;
    assert c1a.PreOrder(rest - {c1}) == [c1a];
    assert c2.PreOrder(rest) == [c2];
    assert c1.Subtrees(rest, 1) == c1.Subtrees(rest, 0) + c1a.PreOrder(rest - {c1});
    assert c1.PreOrder(rest) == [c1, c1a];
    assert root.Subtrees(nodes, 1) == root.Subtrees(nodes, 0) + c1.PreOrder(rest);
    assert root.Subtrees(nodes, 2) == root.Subtrees(nodes, 1) + c2.PreOrder(rest);
  }

  /** AppendSubcategory of a category whose name is free in a parent without fields: it succeeds. */
  method AppendFresh(parent: Category, child: Category)
    requires parent.fields == [] && child.name !in CategoryNames(parent.subcategories)
    modifies parent`subcategories
    ensures parent.subcategories == old(parent.subcategories) + [child]
  {
    var err := parent.AppendSubcategory(child);
  }

  /**
   * The tree of PreOrderExample built top-down, a parent's append before its child's, as
   * a caller of the Go code would build it: all three appends succeed and the result is
   * a tree over its four categories.
   */
  method BuildExample() returns (root: Category, c1: Category, c1a: Category, c2: Category)
    ensures root.subcategories == [c1, c2] && c1.subcategories == [c1a]
    ensures c1a.subcategories == [] && c2.subcategories == []
    ensures root.Tree({root, c1, c1a, c2})
  {
    root := new Category("root", "");
    c1 := new Category("c1", "");
    c1a := new Category("c1a", "");
    c2 := new Category("c2", "");
    AppendFresh(root, c1);
    AppendFresh(c1, c1a);
    AppendFresh(root, c2);
    ExampleTree(root, c1, c1a, c2);
  }

  /** Four distinct categories in the shape of PreOrderExample form a tree over themselves. */
  lemma ExampleTree(root: Category, c1: Category, c1a: Category, c2: Category)
    requires Seqs.Distinct([root, c1, c1a, c2])
    requires root.subcategories == [c1, c2] && c1.subcategories == [c1a]
    requires c1a.subcategories == [] && c2.subcategories == []
    ensures root.Tree({root, c1, c1a, c2})
  {
  }

  /** The walk of the tree BuildExample builds visits it in pre-order. */
  method WalkExample() returns (root: Category, visited: seq<Category>)
    ensures |root.subcategories| == 2 && |root.subcategories[0].subcategories| == 1
    ensures visited == [root, root.subcategories[0], root.subcategories[0].subcategories[0], root.subcategories[1]]
  {
    var c1, c1a, c2;
    root, c1, c1a, c2 := BuildExample();
    visited := root.WalkCategories({root, c1, c1a, c2});
    PreOrderExample(root, c1, c1a, c2, {root, c1, c1a, c2});
  }

  /**
   * Appending a category to itself succeeds, as no subcategory has its name yet; the
   * result is a cycle that is no tree over any nodes, so the walks would not end on it.
   */
  method SelfAppendExample() returns (c: Category, err: Option<Error>)
    ensures err == None && c.subcategories == [c]
    ensures forall nodes: set<Category> :: !c.Tree(nodes)
  {
    c := new Category("c", "");
    err := c.AppendSubcategory(c);
    forall nodes: set<Category> ensures !c.Tree(nodes) {
      assert c in c.subcategories;
    }
  }

  /** The scan of GetField: the first of fs named name, or null. */
  function FirstField(fs: seq<Field>, name: string): (r: Field?)
    reads fs
    ensures var k := Seqs.IndexOf(FieldNames(fs), name); r == if k < |fs| then fs[k] else null
    ensures r == null <==> name !in FieldNames(fs)
    decreases |fs|
  {
    if fs == [] then null
    else if fs[0].name == name then fs[0]
    else
      assert FieldNames(fs)[1..] == FieldNames(fs[1..]);
      FirstField(fs[1..], name)
  }

  /** The scan of GetSubcategory: the first of cs named name, or null. */
  function FirstCategory(cs: seq<Category>, name: string): (r: Category?)
    reads cs`name
    ensures var k := Seqs.IndexOf(CategoryNames(cs), name); r == if k < |cs| then cs[k] else null
    ensures r == null <==> name !in CategoryNames(cs)
    decreases |cs|
  {
    if cs == [] then null
    else if cs[0].name == name then cs[0]
    else
      assert CategoryNames(cs)[1..] == CategoryNames(cs[1..]);
      FirstCategory(cs[1..], name)
  }

  /** The fields of a concatenation of category lists are the fields of each part in turn. */
  lemma {:induction false} FieldsOfAppend(a: seq<Category>, b: seq<Category>)
    ensures FieldsOf(a + b) == FieldsOf(a) + FieldsOf(b)
    decreases |b|
  {
    if b == [] {
      assert a + b == a;
    } else {
      var b' := b[..|b| - 1];
      assert (a + b)[..|a + b| - 1] == a + b';
      FieldsOfAppend(a, b');
    }
  }

  /** A field is collected exactly when it is a direct field of one of the categories. */
  lemma {:induction false} FieldsOfMembers(cats: seq<Category>, f: Field)
    ensures f in FieldsOf(cats) <==> exists i :: 0 <= i < |cats| && f in cats[i].fields
  {
    if cats != [] {
      var init := cats[..|cats| - 1];
      FieldsOfMembers(init, f);
      if f in FieldsOf(init) {
        var i :| 0 <= i < |init| && f in init[i].fields;
        assert cats[i] == init[i];
      }
      if i :| 0 <= i < |cats| - 1 && f in cats[i].fields {
        assert init[i] == cats[i];
      }
    }
  }

  /** Distinct names make distinct entries: no field or subcategory object is listed twice. */
  lemma DistinctNamesDistinctEntries(fs: seq<Field>, cs: seq<Category>)
    requires Seqs.Distinct(FieldNames(fs) + CategoryNames(cs))
    ensures Seqs.Distinct(fs) && Seqs.Distinct(cs)
  {
    var a, b := FieldNames(fs), CategoryNames(cs);
    Seqs.DistinctLeft(a, b);
    Seqs.DistinctRight(a, b);
    forall i, j | 0 <= i < j < |fs| ensures fs[i] != fs[j] {
      assert a[i] != a[j];
    }
    forall i, j | 0 <= i < j < |cs| ensures cs[i] != cs[j] {
      assert b[i] != b[j];
    }
  }

  lemma FieldNamesAppend(fs: seq<Field>, f: Field)
    ensures FieldNames(fs + [f]) == FieldNames(fs) + [f.name]
  {
  }

  lemma CategoryNamesAppend(cs: seq<Category>, c: Category)
    ensures CategoryNames(cs + [c]) == CategoryNames(cs) + [c.name]
  {
  }

  lemma FieldNamesRemoveAt(fs: seq<Field>, k: nat)
    requires k < |fs|
    ensures FieldNames(Seqs.RemoveAt(fs, k)) == Seqs.RemoveAt(FieldNames(fs), k)
  {
  }

  lemma CategoryNamesRemoveAt(cs: seq<Category>, k: nat)
    requires k < |cs|
    ensures CategoryNames(Seqs.RemoveAt(cs, k)) == Seqs.RemoveAt(CategoryNames(cs), k)
  {
  }

  lemma NamespaceAfterAppendField(fs: seq<Field>, cs: seq<Category>, f: Field)
    requires Seqs.Distinct(FieldNames(fs) + CategoryNames(cs))
    requires f.name !in FieldNames(fs) && f.name !in CategoryNames(cs)
    ensures Seqs.Distinct(FieldNames(fs + [f]) + CategoryNames(cs))
  {
    FieldNamesAppend(fs, f);
    DistinctInsert(FieldNames(fs), f.name, CategoryNames(cs));
  }

  lemma NamespaceAfterAppendSubcategory(fs: seq<Field>, cs: seq<Category>, c: Category)
    requires Seqs.Distinct(FieldNames(fs) + CategoryNames(cs))
    requires c.name !in FieldNames(fs) && c.name !in CategoryNames(cs)
    ensures Seqs.Distinct(FieldNames(fs) + CategoryNames(cs + [c]))
  {
    CategoryNamesAppend(cs, c);
    DistinctInsert(FieldNames(fs) + CategoryNames(cs), c.name, []);
    assert FieldNames(fs) + (CategoryNames(cs) + [c.name]) == FieldNames(fs) + CategoryNames(cs) + [c.name] + [];
  }

  lemma NamespaceAfterRemoveField(fs: seq<Field>, cs: seq<Category>, f: Field)
    requires Seqs.Distinct(FieldNames(fs) + CategoryNames(cs))
    ensures Seqs.Distinct(FieldNames(Seqs.Removed(fs, f)) + CategoryNames(cs))
  {
    if f in fs {
      var k := Seqs.IndexOf(fs, f);
      FieldNamesRemoveAt(fs, k);
      Seqs.DistinctRemoveAtLeft(FieldNames(fs), CategoryNames(cs), k);
    }
  }

  lemma NamespaceAfterRemoveSubcategory(fs: seq<Field>, cs: seq<Category>, c: Category)
    requires Seqs.Distinct(FieldNames(fs) + CategoryNames(cs))
    ensures Seqs.Distinct(FieldNames(fs) + CategoryNames(Seqs.Removed(cs, c)))
  {
    if c in cs {
      var k := Seqs.IndexOf(cs, c);
      CategoryNamesRemoveAt(cs, k);
      Seqs.DistinctRemoveAtRight(FieldNames(fs), CategoryNames(cs), k);
    }
  }

  lemma NamespaceAfterMoveFieldToEnd(fs: seq<Field>, cs: seq<Category>, from: nat)
    requires from < |fs|
    requires Seqs.Distinct(FieldNames(fs) + CategoryNames(cs))
    ensures Seqs.Distinct(FieldNames(Seqs.RemoveAt(fs, from) + [fs[from]]) + CategoryNames(cs))
  {
    var names := FieldNames(fs);
    FieldNamesRemoveAt(fs, from);
    FieldNamesAppend(Seqs.RemoveAt(fs, from), fs[from]);
    Seqs.MoveToEndPermutes(names, from);
    Seqs.DistinctReorderLeft(names, Seqs.RemoveAt(names, from) + [names[from]], CategoryNames(cs));
  }

  lemma NamespaceAfterMoveSubcategoryToEnd(fs: seq<Field>, cs: seq<Category>, from: nat)
    requires from < |cs|
    requires Seqs.Distinct(FieldNames(fs) + CategoryNames(cs))
    ensures Seqs.Distinct(FieldNames(fs) + CategoryNames(Seqs.RemoveAt(cs, from) + [cs[from]]))
  {
    var names := CategoryNames(cs);
    CategoryNamesRemoveAt(cs, from);
    CategoryNamesAppend(Seqs.RemoveAt(cs, from), cs[from]);
    Seqs.MoveToEndPermutes(names, from);
    Seqs.DistinctReorderRight(FieldNames(fs), names, Seqs.RemoveAt(names, from) + [names[from]]);
  }

  /** Adding a name that is new to a duplicate-free list keeps it duplicate-free. */
  lemma DistinctInsert(a: seq<string>, x: string, b: seq<string>)
    requires Seqs.Distinct(a + b) && x !in a && x !in b
    ensures Seqs.Distinct(a + [x] + b)
  {
    var s := a + [x] + b;
    forall i, j | 0 <= i < j < |s| ensures s[i] != s[j] {
      var i' := if i < |a| then i else i - 1;
      var j' := if j < |a| then j else j - 1;
      if i != |a| && j != |a| {
        assert s[i] == (a + b)[i'] && s[j] == (a + b)[j'];
      }
    }
  }

  /** Renaming one subcategory to a name new to the namespace keeps it duplicate-free. */
  lemma DistinctRenameRight(a: seq<string>, b: seq<string>, k: nat, x: string)
    requires k < |b| && Seqs.Distinct(a + b) && x !in a && x !in b
    ensures Seqs.Distinct(a + b[k := x])
  {
    DistinctUpdate(a + b, |a| + k, x);
    assert a + b[k := x] == (a + b)[|a| + k := x];
  }

  /** Renaming one field to a name new to the namespace keeps it duplicate-free. */
  lemma DistinctRename(a: seq<string>, b: seq<string>, k: nat, x: string)
    requires k < |a| && Seqs.Distinct(a + b) && x !in a && x !in b
    ensures Seqs.Distinct(a[k := x] + b)
  {
    DistinctUpdate(a + b, k, x);
    assert a[k := x] + b == (a + b)[k := x];
  }

  /** Replacing one name by a name new to the list keeps it duplicate-free. */
  lemma DistinctUpdate(s: seq<string>, k: nat, x: string)
    requires k < |s| && Seqs.Distinct(s) && x !in s
    ensures Seqs.Distinct(s[k := x])
  {
  }
}
