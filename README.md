# Categories, contacts and groups of titian, modelled in Dafny

This project models three parts of the titian contact database (Go):

- **The field taxonomy.** A tree of categories. Each category has a name, a description, an ordered list of fields and an ordered list of subcategories. The names of a category's direct fields and direct subcategories share one namespace: no name may occur twice among them.
  - Append and rename check that namespace before they change anything.
  - Remove works by reference identity.
  - Move is meant as remove-then-reinsert. The Go code gets that only for a move to the last position; for any `dest < len - 1` it duplicates the moved element (see Findings).
  - The two walks visit the tree in pre-order.
- **A contact's e-mail list.** A primary address plus an ordered list of verified addresses, and a map from field ids to the values stored for those fields.
- **Groups.** A set of contacts with add, remove and listing.

Files:

- `seqs.dfy`
  - module `Wrappers`: `Option`.
  - module `Seqs`: list operations shared by the other modules. It also holds the two places where the Go code's result depends on a slice's backing array: the removal loop and the double `append` of the move operations.
- `category.dfy`: module `Taxonomy`, with the `Field` and `Category` classes.
- `contact.dfy`: module `Contacts`, with the `Contact` class.
- `group.dfy`: module `Groups`, with the `Group` class.

How the model is stated:

- **Panics are preconditions.** A move index out of range, a rename of a missing name, and verifying the zero e-mail address are all `requires` clauses.
- **Returned errors are values.** They are `Option` values of an error datatype.
- **The namespace invariant.** `Category.NamesDistinct()` states it. Every successful append, rename, removal and move-to-the-end keeps it.
- **Acyclic trees.** `Category.Tree(nodes)` states that the tree rooted at a category is finite and acyclic, with its categories in the set `nodes`. Each step down to a subcategory drops the category it came from out of `nodes`, so no path can return to a category. Only the walks need it, because WalkCategories ends only on an acyclic tree. The walks take `nodes` as a ghost argument, and any set holding the tree will do (`TreeMonotone`). No footprint is stored, so a tree built top-down is a tree as it stands (`BuildExample`). Nothing in Go stops a cycle (see Findings).
- **The container lookup is a parameter.** `c.app.contacts.Find` is passed in as the set of addresses it would find (`inUse`).

The documentation comment of WalkCategories (core/field/category.go:183-184) calls the walk breadth-first, but the code is a recursive pre-order walk. The model follows the code. `Category.DepthFirst` and `PreOrderExample` state the difference.

## Model

| member | source | states |
|---|---|---|
| Taxonomy.Category.constructor | core/field/category.go:17-31 | NewCategory cannot fail: the category has the given name and description, no fields and no subcategories, is a one-node tree and satisfies the namespace invariant |
| Taxonomy.Category.SetDescription | core/field/category.go:44-47 | the description is replaced and nothing else changes |
| Taxonomy.Category.SetName | core/field/category.go:208-211 | the name is replaced and nothing else changes |
| Taxonomy.Field.SetName | core/field/category.go:141 | the field's name is replaced and nothing else changes |
| Taxonomy.FirstField | core/field/category.go:60-68 | the scan returns the field at the first position whose name matches, and null exactly when no field has that name |
| Taxonomy.FirstCategory | core/field/category.go:71-79 | the same for subcategories: the first match, or null exactly when none has the name |
| Taxonomy.Category.GetField | core/field/category.go:60-68 | looks only at direct fields: the first one named `name`, null exactly when the name is not among the direct field names |
| Taxonomy.Category.GetSubcategory | core/field/category.go:71-79 | looks only at direct subcategories: the first one named `name`, null exactly when the name is not among them |
| Taxonomy.Category.AppendField | core/field/category.go:82-93 | DuplicateName if a direct field has the name, else NameCollidesWithSubcategory if a direct subcategory has it, else success. On error the list is unchanged; on success the field is appended at the end. The subcategories are never touched and the namespace invariant is kept |
| Taxonomy.Category.PushField | core/field/category.go:91 | appending a field whose name is free keeps the namespace invariant |
| Taxonomy.Category.AppendSubcategory | core/field/category.go:96-107 | DuplicateName if a direct subcategory has the name, else NameCollidesWithField if a direct field has it, else the category is appended. The fields are never touched. The namespace invariant is kept. The parent stays a tree over any nodes when the new child is a tree over those nodes without the parent |
| Taxonomy.Category.PushSubcategory | core/field/category.go:105 | appending a subcategory whose name is free keeps the namespace invariant, and keeps the parent a tree when the child is a tree over the nodes without the parent |
| Taxonomy.Category.RemoveField | core/field/category.go:166-172 | the list loses the first occurrence of the field, found by reference; the others keep their order. Absence changes nothing. The namespace invariant is kept |
| Taxonomy.Category.RemoveSubcategory | core/field/category.go:175-181 | the same on the subcategory list; the namespace invariant is kept, and the category stays a tree over any nodes it was a tree over |
| Seqs.RemoveByIdentity | core/field/category.go:166-181 | the Go loop keeps ranging over the backing array it shifts in place; for a reference that occurs at most once, its result is the list without that reference |
| Seqs.Removed | core/field/category.go:166-181 | removing an absent element gives the same list; removing a present one shortens it by one. An element that occurred at most once is gone afterwards |
| Seqs.RemovedMultiset | core/field/category.go:166-181 | removal takes exactly one copy of the element out of the multiset of elements |
| Taxonomy.Category.MoveField | core/field/category.go:111-115 | the fields become the move as the slice code computes it. For the last position this is the remove-then-reinsert, and then the namespace invariant is kept |
| Taxonomy.Category.MoveSubcategory | core/field/category.go:119-123 | the same on the subcategory list; for every destination the category stays a tree over any nodes it was a tree over |
| Seqs.InsertAsWritten | core/field/category.go:114 | the double append after a removal writes the moved element at `dest` before it reads the tail, so the moved element is also the first element of that tail |
| Seqs.InsertedAsWritten | core/field/category.go:114 | the list grows by one and keeps its prefix; for a `dest` before the end the moved element appears at `dest` and at `dest + 1`, followed by the old tail without its first element |
| Seqs.MovedAsWrittenToEnd | core/field/category.go:111-115 | moving to the last position gives exactly the list without the element, with the element appended |
| Seqs.MovedAsWrittenDuplicates | core/field/category.go:114 | any other destination puts the moved element at both `dest` and `dest + 1`; on a duplicate-free list the result is not a permutation |
| Seqs.MoveFirstToLastExample | core/field/category.go:111-115 | `[X, Y, Z]` moved from 0 to 2 gives `[Y, Z, X]` |
| Seqs.MoveLastToFrontExample | core/field/category.go:114 | `[X, Y, Z]` moved from 2 to 0: the intended result is `[Z, X, Y]`, the code gives `[Z, Z, Y]` |
| Seqs.Moved | core/field/category.go:109-123 | the intended remove-then-reinsert: the length is kept and the moved element lands at `dest` |
| Seqs.MovedPermutes | core/field/category.go:109-123 | the intended move keeps the multiset of elements |
| Seqs.MovedAsWritten | core/field/category.go:112-114 | the move as the slice code computes it (remove, then the double append); it keeps the length of the list |
| Seqs.MovedAsWrittenSubset | core/field/category.go:114 | the move as written introduces no element that was not in the list |
| Taxonomy.Category.RenameField | core/field/category.go:126-143 | checks in the source's order: DuplicateName if `to` is a field name (including `from == to`), else NameCollidesWithSubcategory if it is a subcategory name. Only then is a missing `from` a panic. On error no name changes; on success only the first field named `from` takes the new name and keeps its position. The namespace invariant is kept |
| Taxonomy.Category.RelabelField | core/field/category.go:141-142 | renaming the field at position k to a free name changes exactly that name and keeps the namespace invariant |
| Taxonomy.Category.RenameSubcategory | core/field/category.go:146-163 | the same on subcategories, with DuplicateName checked before NameCollidesWithField; a rename leaves every tree a tree |
| Taxonomy.Category.RelabelSubcategory | core/field/category.go:161-162 | renaming the subcategory at position k to a free name changes exactly that name and keeps the namespace invariant |
| Taxonomy.Category.TreeAfterShrink | core/field/category.go:175-181 | a category whose new subcategory list holds only old subcategories, with nothing else changed, is still a tree over the same nodes |
| Taxonomy.Category.TreeMonotone | core/field/category.go:185-196 | a tree over some set of nodes is a tree over any larger set, so the walks accept any set that holds the tree |
| Taxonomy.Category.PreOrder | core/field/category.go:185-196 | the pre-order of the tree starts at the receiver, lies in the given nodes, and does not visit the receiver again |
| Taxonomy.Category.Subtrees | core/field/category.go:187-192 | the visits for the first k subcategories lie in the nodes without the receiver |
| Taxonomy.Category.WalkCategories | core/field/category.go:185-196 | on a tree, the visits are the receiver, then the whole subtree of each subcategory in list order, before the next (pre-order) |
| Taxonomy.Category.WalkFields | core/field/category.go:200-206 | on a tree, the visits are the direct fields of each category WalkCategories visits, in that order, each category's in list order |
| Taxonomy.Category.PreOrderTrees | core/field/category.go:185-196 | every category the walk visits is itself the root of a tree over the same nodes |
| Taxonomy.Category.SubtreesTrees | core/field/category.go:187-192 | every category visited for the first k subcategories is a tree over the nodes without the receiver |
| Taxonomy.Category.SubtreesCover | core/field/category.go:187-192 | the whole pre-order of each of the first k subcategories is among the visits for those k |
| Taxonomy.Category.TreeWithout | core/field/category.go:185-196 | a category the walk never reaches can be dropped from the nodes, and the tree is still a tree |
| Taxonomy.Category.SubtreesPrefix | core/field/category.go:187-192 | the visits for the first j subcategories are a prefix of those for the first k (j ≤ k): earlier siblings' subtrees come first |
| Taxonomy.Category.DepthFirst | core/field/category.go:183-196 | after the receiver comes the first subcategory, and right after it that subcategory's own first subcategory, before any later sibling: depth first, not breadth first |
| Taxonomy.PreOrderExample | core/field/category.go:183-196 | a root with subcategories `[C1, C2]`, where C1 has C1a, is visited as `[root, C1, C1a, C2]` |
| Taxonomy.ExampleTree | core/field/category.go:185-196 | four distinct categories in that shape are a tree over themselves |
| Taxonomy.BuildExample | core/field/category.go:95-107 | building that tree top-down (`root` gets `C1`, then `C1` gets `C1a`, then `root` gets `C2`) succeeds at every append and gives a tree the walks accept |
| Taxonomy.WalkExample | core/field/category.go:185-196 | the walk of the tree BuildExample builds visits `[root, C1, C1a, C2]` |
| Taxonomy.SelfAppendExample | core/field/category.go:95-107 | appending a fresh category to itself succeeds, and the result is no tree over any set of nodes |
| Taxonomy.Category.AppendSubcategoryChecked | core/field/category.go:95-107 | the append with a cycle check: the two name errors as in AppendSubcategory, then CreatesCycle if the receiver is among the new child's walk, else the child is appended. The receiver stays a tree and the namespace invariant is kept |
| Taxonomy.FieldsOf | core/field/category.go:200-206 | the fields of a category list, each category's in turn; no categories give no fields, and each category's fields fit in the result |
| Taxonomy.FieldsOfAppend | core/field/category.go:200-206 | the fields collected from two category lists in turn are those of the first list followed by those of the second |
| Taxonomy.FieldsOfMembers | core/field/category.go:200-206 | a field is visited exactly when it is a direct field of some visited category |
| Taxonomy.DistinctNamesDistinctEntries | core/field/category.go:166-181 | under the namespace invariant no field and no subcategory object is listed twice, so the removals' at-most-once condition holds |
| Taxonomy.NamespaceAfterAppendField | core/field/category.go:82-93 | appending a field with a free name keeps the names distinct |
| Taxonomy.NamespaceAfterAppendSubcategory | core/field/category.go:96-107 | appending a subcategory with a free name keeps the names distinct |
| Taxonomy.NamespaceAfterRemoveField | core/field/category.go:166-172 | removing a field keeps the names distinct |
| Taxonomy.NamespaceAfterRemoveSubcategory | core/field/category.go:175-181 | removing a subcategory keeps the names distinct |
| Taxonomy.NamespaceAfterMoveFieldToEnd | core/field/category.go:111-115 | moving a field to the end keeps the names distinct |
| Taxonomy.NamespaceAfterMoveSubcategoryToEnd | core/field/category.go:119-123 | moving a subcategory to the end keeps the names distinct |
| Taxonomy.DistinctRename | core/field/category.go:126-143 | giving one field a name that is new to the namespace keeps the names distinct |
| Taxonomy.DistinctRenameRight | core/field/category.go:146-163 | giving one subcategory a name that is new to the namespace keeps the names distinct |
| Contacts.Contact.EmailAddresses | core/contact.go:31-33 | the primary address followed by the verified addresses, in order |
| Contacts.Contact.VerifyEmailAddress | core/contact.go:38-49 | zero address: panic (excluded). An address the container finds: AddressInUse, list unchanged. Otherwise the address is appended at the end |
| Contacts.Contact.SetPrimaryEmailAddress | core/contact.go:55-73 | An address of the contact becomes primary and is taken out of `[primary] + verified`, so the old primary becomes the first verified address and the multiset of addresses is unchanged. Making the current primary primary changes nothing. Any other address goes through VerifyEmailAddress: AddressInUse changes nothing, else the new state is as the code computes it |
| Contacts.PromotedAsWritten | core/contact.go:55-73 | the addresses after SetPrimaryEmailAddress as written: the new primary first; for a new address the list keeps its old length |
| Contacts.PromotedAsWrittenKnown | core/contact.go:56-64 | for an address of the contact, the code agrees with the documented behaviour |
| Contacts.PromotedAsWrittenNew | core/contact.go:66-72 | for a new address the code keeps one address fewer than documented; on a duplicate-free list, the old last address is lost |
| Contacts.PromotedAsWrittenExample | core/contact.go:71 | primary `a` with verified `[b]`, making `c` primary: the code gives `[c, a]`, the documentation `[c, a, b]` |
| Contacts.Promoted | core/contact.go:51-54 | the documented behaviour: the new primary first. A known address is moved; a new one is put in front of all the old addresses |
| Contacts.PromotedMultiset | core/contact.go:51-64 | the documented promotion neither loses nor duplicates an address, and a new address is added exactly once |
| Contacts.PromotedDistinct | core/contact.go:51-64 | the documented promotion keeps a duplicate-free address list duplicate-free |
| Contacts.Contact.RemoveEmailAddress | core/contact.go:78-91 | the primary address gives RemovesPrimary and changes nothing. Otherwise the first occurrence is removed, the others keep their order, the primary is untouched, and an absent address is a silent no-op |
| Contacts.Contact.Field | core/contact.go:102-108 | the value stored under the field's id, or nothing (nil) exactly when none is stored |
| Contacts.Contact.SetField | core/contact.go:110-112 | afterwards the value's own field reads back as that value, and every field with another id reads as before |
| Groups.Group.SetName | group/group.go:18-21 | the name is replaced; the Go method always returns nil |
| Groups.Group.SetDescription | group/group.go:28-31 | the description is replaced; the Go method always returns nil |
| Groups.Group.Members | group/group.go:34-42 | every member exactly once: the same elements as the set, no duplicates, as many entries as members, in an unspecified order |
| Groups.Group.AddContact | group/group.go:44-46 | the contact is a member and the other members are unchanged; adding a member again changes nothing |
| Groups.Group.RemoveContact | group/group.go:48-50 | the contact is not a member and the other members are unchanged; removing a non-member changes nothing |

## Left out

- `Category.Name`, `Category.Description`, `Group.Name`, `Group.Description`, `Contact.EmailAddress`: plain field reads. The model reads the fields directly.
- `Category.Fields` and `Category.Subcategories` (core/field/category.go:50-57): the returned slices share the category's backing array. Changing a category through them from outside is not modelled.
- Taxonomy.Category.WalkCategories: requires the receiver to be a tree over some set of categories. On a taxonomy with a cycle the Go walk recurses without end (see Findings), and the model does not follow it. WalkFields inherits the same requirement.
- The callbacks of WalkCategories and WalkFields: each walk returns the sequence of visits instead of calling `fn`. A callback that changes the tree during the walk is not modelled.
- Taxonomy.Category.RemoveField: requires the removed reference to occur at most once in its list. With a reference listed twice, the Go loop's behaviour depends on stale array cells, and the model does not follow it. Under the namespace invariant every reference occurs at most once (`DistinctNamesDistinctEntries`).
- Taxonomy.Category.RemoveSubcategory: requires the removed reference to occur at most once in its list. With a reference listed twice, the Go loop's behaviour depends on stale array cells, and the model does not follow it. Under the namespace invariant every reference occurs at most once (`DistinctNamesDistinctEntries`).
- Taxonomy.Category.MoveField: requires the removed reference to occur at most once in its list. With a reference listed twice, the Go loop's behaviour depends on stale array cells, and the model does not follow it. Under the namespace invariant every reference occurs at most once (`DistinctNamesDistinctEntries`).
- Taxonomy.Category.MoveSubcategory: requires the removed reference to occur at most once in its list. With a reference listed twice, the Go loop's behaviour depends on stale array cells, and the model does not follow it. Under the namespace invariant every reference occurs at most once (`DistinctNamesDistinctEntries`).
- Taxonomy.Category.MoveField: the namespace invariant is proved only for a move to the last position. For every other destination the code duplicates an element (see Findings), which breaks the invariant.
- Taxonomy.Category.MoveSubcategory: the namespace invariant is proved only for a move to the last position. For every other destination the code duplicates an element (see Findings), which breaks the invariant.
- Sharing a field or subcategory object between two parents is not excluded. A rename through one parent can then break the other parent's namespace. The contracts speak only of the receiver's own lists.
- `Field`: its definition (`Name`, `setName`, `id`) is not part of this model. It is a minimal class with a constant id and a mutable name.
- Error texts and `fmt` formatting: each error is one constructor of an error datatype.
- `Contact.Merge` (core/contact.go:95-99) calls the container's `Delete` and a `VerifiedEmails` method, neither of which is part of this model.
- The container of contacts (`c.app.contacts`) and its `Find` lookup: `Find` is a parameter `inUse`, the set of addresses it would find, so the model does not store contacts.
- The struct field `secondaryEmails` (core/contact.go:16) and the `verifiedEmails` the methods use are one list in the model.
- `EmailAddress`: its definition is not part of this model. It is a string, and the empty string plays Go's zero value.
- `FieldValue`: only its field and a data string are modelled.
- `Group.contacts` has no constructor in Go and may be a nil map. The model assumes the set exists.
- `Contact.fields`: no constructor for `Contact` appears in the source, so the map may be nil, and then SetField (core/contact.go:111) panics. The model assumes the map exists.

## Findings

| source | as written | input that shows it | evidently intended | confidence | as-written member | corrected member |
|---|---|---|---|---|---|---|
| core/field/category.go:114 (and :122) | `append(append(c.fields[:dest], field), c.fields[dest:]...)` runs after RemoveField has left one free cell in the backing array. The inner append overwrites position `dest` with the moved element before `c.fields[dest:]` is read | fields `[X, Y, Z]`, `MoveField(2, 0)` gives `[Z, Z, Y]`; every `dest < len - 1` duplicates the moved element and loses another | remove-then-reinsert: `[Z, X, Y]`, a permutation of the list | high; not executed | Taxonomy.Category.MoveField, Seqs.MovedAsWrittenDuplicates, Seqs.MoveLastToFrontExample | Seqs.Moved, Seqs.MovedPermutes |
| core/contact.go:71 | for an address the contact does not have, the verified list becomes `emails[:len(emails)-1]`, the old `[primary] + verified` without its last entry | primary `a`, verified `[b]`, `SetPrimaryEmailAddress(c)`: the addresses become `[c, a]` and `b` is lost | "bumping an existing primary e-mail address down the list": `[c, a, b]` | high; not executed | Contacts.Contact.SetPrimaryEmailAddress, Contacts.PromotedAsWrittenNew, Contacts.PromotedAsWrittenExample | Contacts.Promoted, Contacts.PromotedMultiset |
| core/field/category.go:96-107 | AppendSubcategory checks only names, so a category whose subtree holds the receiver is accepted. WalkCategories (:185-196) then recurses without end on the cycle | `c.AppendSubcategory(c)` on a category `c` with no subcategory named like `c` succeeds | a refused append, so that the taxonomy stays a tree | medium; not executed | Taxonomy.Category.AppendSubcategory, Taxonomy.SelfAppendExample | Taxonomy.Category.AppendSubcategoryChecked, Taxonomy.Category.TreeWithout |
