# A verified model of the SAML library's core

This project states, in Dafny, what the hard parts of the library do and proves what they are for. It has four
parts.

**Names and canonical forms.** The signature path is a chain of rewrites of an XML tree: canonicalize, sign, insert the
Signature, add a declaration, embed in a document, detach from it, strip unused declarations, remove the Signature by
its path, canonicalize again. Each rewrite drops, moves or adds namespace declarations, and each has to leave every name
with its meaning. `Xml` has the trees and the namespace contexts, `AttrOrder` the attribute order, and `Views` the
reference for everything else: the *view* of an element resolves every used prefix and forgets declarations, attribute
order and, on request, comments. `ExcC14n`, `InclusiveC14n`, `Relocate`, `Strip`, `Unmarshal` and `Enveloped` define the
rewrites as functions and prove their laws. `Etree`, `EtreeEdit`, `EtreeDetach` and `Traversal` have the code in its own form, with
objects that are edited in place and loops over attributes and children, and prove that it computes these functions.
`KeyInfo` and `Search` have two changes that the verifier makes to an element before anything is digested.

**The identity provider's server.** `Store` is the key-value map. `Services` is the registry, a pair of maps over the
store, with its handlers as methods. `Users` is a state machine of logins, user changes, logouts and session look-ups in
which a step is one call of the store or the taking of a lock, so that requests interleave between any two calls and each
call may fail. `UserHistory` says, over its runs, which requests there must have been for a session or a user, and which
sessions end and stay. `UserEmails` has the two searches for an email.

**Messages.** `Redirect` has the signed query string of the HTTP-Redirect binding: printer, verifier and decoder.
`Pipeline` follows an assertion from the message to the caller, and `Acceptance` has the checks it has to pass and the
assertion that the identity provider makes. `Provenance` brings this together with the trees: what the verified content is
that an assertion was read from.

**Buffers and numbers.** `Cbc` has the padding and chaining of section 5.2 of XML Encryption, and `Durations` the
xsd:duration printer and parser over `Decimal` digits and `Binary64` rounding.

`Wrappers` and `Powers` are shared helpers.

## How to read it

- Map iteration order, goroutine interleaving, store failures, clocks, fresh identifiers, certificates, ciphers and the
  type conversions that Go leaves to the implementation are parameters or choices of the caller, and the results hold for
  all of them.
- A lock makes its section one step where nothing but that section touches the data (the registry). Where others do (the
  users and sessions), each call of the store is a step of its own.
- Canonical forms without ties in the attribute order are exact. `TieFree` says that no element has two prefixed
  attributes with the same local name, nor the same attribute twice. With ties the in-place methods promise the same up to
  attribute order (`Alike`).
- Digests are not modelled: digested trees are compared instead.

## Where the code differs from what one might expect

- **Empty default namespaces.** The code takes the XML namespace as the default one for a sign that there is none. So an
  unprefixed element for which `xmlns=""` is in scope gets that declaration even if the output around it has no default
  namespace, where section 3 of Exclusive XML Canonicalization 1.0 leaves it out. `ExcC14n.OutputEmptyDefaults` has the
  exact condition, `ExcC14n.Superfluous` says when the standard differs, and `ExcC14n.UnprefixedRoot` and
  `ExcC14n.PrefixedRoot` are inputs. Views follow the code, so equal views and equal forms agree.
- **Attribute order.** The comparison puts prefixed attributes in the order of their local names, where the standard puts
  namespaces first, and for equal local names it takes the value of the last attribute on the element whose local name is the
  prefix, declaration or not. `AttrOrder.StandardOrder` and `AttrOrder.StandardOrderSameName` say exactly when it agrees
  with the standard for two attributes, and `AttrOrder.SortedByStandard` for the sorted list. `AttrOrder.Hidden`,
  `ExcC14n.LocalNameFirst` and `ExcC14n.Undecided` are inputs where it does not.
- **Signed without a default namespace.** If unprefixed names are signed where there is no default namespace and the element
  is then put into a document that has one, verification fails. `Enveloped.SignThenVerify` has the exact condition, and
  `Enveloped.SignedWithoutDefault` is an input.
- **`elementToBytes`.** The tree library takes an attribute `p:xmlns` for a declaration of the default namespace. An
  element with the reserved prefix `xmlns` makes the code add such an attribute itself. `Relocate.StandaloneKeepsNames` has
  the exact condition under which element names survive that, and `Relocate.DecoyChangesName` is an input where one does
  not.
- **Signatures in stripped trees.** Stripping may remove a declaration which only a Signature uses. That is what the comment in
  the code asks for, and the laws of `Strip` speak of the names outside Signatures. `Strip.DeclarationKept` says exactly which
  declarations stay, and `Strip.SignatureUnbound` is an input whose Signature loses one.
- **KeyInfo.** If no child named Signature has a certificate, the verifier removes the KeyInfo of the first such child, in
  whatever namespace that is. So an element outside the Signature may be gone before anything is digested.
  `Provenance.ContentOfOriginal` and `KeyInfo.DropsWithinWhen` say exactly when that is not so, and
  `KeyInfo.OtherLosesKeyInfo` is an input where it is.
- **Padding.** An empty plaintext can be encrypted, but decrypting it is refused.
- **Durations.** The smallest int64 is printed as `-PT`, which the parser refuses, and some durations with a fraction come back
  one nanosecond shorter. `Durations.RoundTrip` says exactly which, and `Durations.LosesOne` is one.

## Model

| member | source | states |
|---|---|---|
| AttrOrder.LessIsAttrLess | internal/dsig/etreeutils/sort.go:17-83 | Among attributes of which no two have the same kind and local name, the comparison of the code, with all its branches, is one total order: default declaration, prefix declarations, unprefixed, prefixed, each by local name. |
| AttrOrder.AttrLessTotal | internal/dsig/etreeutils/sort.go:17-83 | That order puts any two different attributes in exactly one of two ways, and none before itself. |
| AttrOrder.AttrLessTransitive | internal/dsig/etreeutils/sort.go:17-83 | The order is transitive. |
| AttrOrder.SortedUnique | internal/dsig/etreeutils/sort.go:17-83 | Two sorted lists of the same attributes are the same list, so the result of sorting does not depend on the input order. |
| AttrOrder.Swap | internal/dsig/etreeutils/sort.go:13-15 | Exchanging two entries keeps the attributes as a multiset. |
| AttrOrder.LessRespectsBefore | internal/dsig/etreeutils/sort.go:17-83 | With ties or without, the comparison never contradicts the order by kind and local name. |
| AttrOrder.LessAtFirstDifference | internal/dsig/etreeutils/sort.go:37-82 | One local name or value is less than another if and only if it ends, or has the smaller character, where they first differ. |
| AttrOrder.LessInText | internal/dsig/etreeutils/sort.go:17-83 | The comparison, in terms of texts: the kinds in their order, then the local name that comes first, and for prefixed attributes with one local name the value taken for the prefix that comes first. |
| AttrOrder.SortAttrs | internal/dsig/etreeutils/sort.go:9-83 | Sorting keeps the attributes as a multiset and always leaves the kinds in their order and, within a kind, the local names as texts; without ties they are in the one total order; with ties between prefixes whose values are without doubt they are in the order of those values, as texts; and a list of which the comparison would move nothing is left as it is. |
| AttrOrder.StandardOrder | internal/dsig/etreeutils/sort.go:63-82 | For prefixed attributes with different local names, the comparison is that of Canonical XML if and only if their namespaces are equal or in the order of their local names. |
| AttrOrder.StandardOrderSameName | internal/dsig/etreeutils/sort.go:63-80 | With the same local name and different prefixes, it is if the last attributes that have the prefixes as their local names have their namespaces as values; if there are no such attributes, it is unless the standard puts the first one first; and if there is one for only one of the prefixes, on the conditions for that. |
| AttrOrder.DeclaredIsShown | internal/dsig/etreeutils/sort.go:68-80 | The first of these is the case for a prefix that the element declares, once, and that is the local name of nothing else. |
| AttrOrder.SortedByStandard | internal/dsig/etreeutils/sort.go:9-83 | The sorted list is in the order of Canonical XML if and only if no two prefixed attributes have local names in one order and namespaces in the other, where prefixes of attributes with the same local name are shown on the element. |
| AttrOrder.TieFreeClear | internal/dsig/etreeutils/sort.go:9-83 | Without ties nothing has to be shown for that. |
| AttrOrder.Hidden | internal/dsig/etreeutils/sort.go:68-80 | An input that the comparison puts against the standard because an unprefixed attribute hides the declaration. |
| Xml.SubContextGood | internal/dsig/etreeutils/namespace.go:90-142 | A context reached by declarations that are allowed keeps the reserved bindings, and never binds the default namespace to the reserved one. |
| Xml.InScope | internal/dsig/etreeutils/namespace.go:109-142 | What is in scope inside an element is the last declaration of a prefix on it, and otherwise what is around it. |
| Xml.RefusedExactly | internal/dsig/etreeutils/namespace.go:109-142 | There is an error if and only if some declaration is forbidden: another namespace for xml, any for xmlns, or that of xmlns as the default one; the first says which error it is. |
| Xml.DeclsErrorNone | internal/dsig/etreeutils/namespace.go:109-142 | An element is refused if and only if one of its declarations is not allowed. |
| Views.SameViewWhenAgree | internal/dsig/etreeutils/namespace.go:109-165 | Two contexts give a tree the same resolved names if and only if they agree on the prefixes that are free in it. |
| Views.WellScopedWhenBound | internal/dsig/etreeutils/namespace.go:109-165 | An element whose names all resolve goes on doing so in any context which binds its free prefixes. |
| Views.WellScopedBinds | internal/dsig/etreeutils/namespace.go:109-165 | If all names of an element resolve in a context, the context binds its free prefixes. |
| ExcC14n.SucceedsWhenWellScoped | internal/dsig/etreeutils/canonicalize.go:28-110 | Exclusive canonicalization succeeds if and only if every declaration is allowed and every used prefix is in scope, with any inclusive list. |
| ExcC14n.OutputScope | internal/dsig/etreeutils/canonicalize.go:64-107 | The key invariant: an output element declares exactly what was added, so that the declared context is what the output has in scope. |
| ExcC14n.KeepsView | internal/dsig/etreeutils/canonicalize.go:28-110 | Every element and attribute name of the output resolves as it did in the input, with any inclusive list. |
| ExcC14n.SameViewSameForm | internal/dsig/etreeutils/canonicalize.go:28-110 | Elements with the same view have the same form, whatever declared their prefixes, in whatever order, and wherever comments were. |
| ExcC14n.CanonicalForm | internal/dsig/etreeutils/canonicalize.go:28-110 | Two well-scoped elements, each in its own context, have the same exclusive canonical form if and only if their views are equal (empty prefix list). |
| ExcC14n.OutputCanonical | internal/dsig/etreeutils/canonicalize.go:64-107 | In the output the attributes are sorted, each declaration is used by that very element or on the inclusive list, none repeats what the output ancestors declare, and no comment is left over. |
| ExcC14n.OutputInText | internal/dsig/etreeutils/canonicalize.go:60-110 | Every element of an output has its attributes in the order of the kinds and, within a kind, of the local names as texts. |
| ExcC14n.OutputDeclaresWanted | internal/dsig/etreeutils/canonicalize.go:28-110 | Every element of an output declares exactly the prefixes of its names, and those on the list that it declared, that the output around it does not bind as the input does, each with the binding of the input. |
| ExcC14n.CanonicalUnchanged | internal/dsig/etreeutils/canonicalize.go:28-110 | A tree of that shape is left as it is. |
| ExcC14n.FixedPoints | internal/dsig/etreeutils/canonicalize.go:28-110 | The trees that canonicalization leaves alone are exactly those of that shape. |
| ExcC14n.Idempotent | internal/dsig/etreeutils/canonicalize.go:28-110 | A second run on any output succeeds and changes nothing. |
| ExcC14n.OutputEmptyDefaults | internal/dsig/etreeutils/canonicalize.go:64-107 | Every element of the output has `xmlns=""` if and only if the element that it comes from utilizes the default namespace, has the empty one in scope, and the output around it does not declare that. |
| ExcC14n.Superfluous | internal/dsig/etreeutils/canonicalize.go:71-86 | It is one that section 3 of Exclusive XML Canonicalization 1.0 leaves out exactly where the output around it has no default namespace. |
| ExcC14n.OutputStandardDefaults | internal/dsig/etreeutils/canonicalize.go:64-107 | Unless the document declares the XML namespace as its default one, the output has every `xmlns=""` that the standard wants, and otherwise only superfluous ones. |
| ExcC14n.UnprefixedRoot | internal/dsig/etreeutils/canonicalize.go:64-107 | An input with a superfluous one: an unprefixed root that declares it. |
| ExcC14n.PrefixedRoot | internal/dsig/etreeutils/canonicalize.go:64-107 | A prefixed root that declares it loses it, and its unprefixed child gets a superfluous one. |
| ExcC14n.LocalNameFirst | internal/dsig/etreeutils/canonicalize.go:60-110 | An element that declares its prefixes and has its attributes in the order of the standard, and whose canonical form has not. |
| ExcC14n.Undecided | internal/dsig/etreeutils/canonicalize.go:60-110 | An element in canonical form with a child that uses prefixes declared above it: two attributes of the child stay in either order, of which the standard has one. |
| Etree.FilterAttrs | internal/dsig/etreeutils/canonicalize.go:34-62 | The filtering loop collects exactly the visibly utilized prefixes and drops exactly the declarations. |
| Etree.DeclareMissing | internal/dsig/etreeutils/canonicalize.go:64-82 | The declaring loop, over the prefixes in any order, declares exactly the ones that are missing, or reports one that is missing and not in scope, if there is one. |
| Etree.RemoveComments | internal/dsig/etreeutils/canonicalize.go:86-97 | The loop that removes by index takes out all comment children and nothing else, in place. |
| Etree.TransformChild | internal/dsig/etreeutils/canonicalize.go:99-107 | The recursive call on one child rewrites that child and leaves its siblings as they were. |
| Etree.TransformChildren | internal/dsig/etreeutils/canonicalize.go:99-107 | The loop over the children rewrites each of them in place, up to the first error, and that is the error reported. |
| Etree.TransformExcC14n | internal/dsig/etreeutils/canonicalize.go:28-110 | The in-place rewrite of an element object turns its tree into the exclusive canonical form, exactly so without tied attributes and up to attribute order with them, or reports the error that form has; it allocates no new element. |
| Relocate.ParentContextGood | internal/dsig/etreeutils/namespace.go:436-448 | The context built from the ancestors keeps the reserved bindings. |
| Relocate.DetachScope | internal/dsig/etreeutils/namespace.go:200-260 | The detached copy has in scope, on its own, exactly what the element had in its document, and the same other attributes. |
| Relocate.DetachDeclares | internal/dsig/etreeutils/namespace.go:200-266 | A detached copy declares all that is in scope, but for xml, xmlns and a default namespace that is none. |
| Relocate.DetachKeepsView | internal/dsig/etreeutils/namespace.go:200-260 | Every element and attribute name in the detached copy resolves as it did in the document. |
| Relocate.DetachInside | service_provider.go:1410-1421 | Detaching from a context that already has the element's own declarations gives the same copy. |
| Relocate.DetachKeepsForm | internal/dsig/etreeutils/namespace.go:200-260 | Detaching first makes no difference to the exclusive canonical form. |
| Relocate.SameNames | service_provider.go:1941-1984 | Two contexts give a tree the same element names if and only if they agree on the prefixes free in those names. |
| Relocate.AddsFaithfully | service_provider.go:1941-1984 | The loop of `elementToBytes` only adds declarations, and each says what the context says, so no prefix is bound anew. |
| Relocate.AddsOnlyNeeded | service_provider.go:1956-1981 | Every declaration that the loop adds is of a prefix that it met, that is in scope and not declared on the element, and never of xml or of a default namespace that is none. |
| Relocate.StandaloneScope | service_provider.go:1941-1984 | For each prefix of an element name the root of the copy has in scope what the element had, except a default namespace that is lost, and that one never. |
| Relocate.StandaloneKeepsNames | service_provider.go:1941-1984 | In whatever order the prefixes are met, every element name keeps its meaning, if and only if it is not the case that a name needs an inherited default namespace which a decoy hides: an attribute `p:xmlns` on the root, or the declaration of the reserved prefix `xmlns`, added when an element with that prefix is met first. |
| Relocate.BlockedStays | service_provider.go:1970-1980 | A default namespace that a decoy hides is never declared, whatever else is. |
| Relocate.DecoyChangesName | service_provider.go:1970-1980 | An input whose element name changes. |
| Unmarshal.DecodedKeepsNames | service_provider.go:1987-2003 | After `elementToBytes` and the stripping, every element name outside Signatures is what it was in the document, if and only if it is not the case that one of them needs a default namespace that is lost. |
| Unmarshal.NamesOutside | service_provider.go:1987-2003 | The same for any stripped tree in a context that agrees with the old one but perhaps on the default namespace. |
| EtreeDetach.AppendInScope | internal/dsig/etreeutils/namespace.go:213-241 | The loop over the prefixes in scope, in any order, appends exactly the declarations to carry. |
| EtreeDetach.InScopeAttrs | internal/dsig/etreeutils/namespace.go:213-255 | The new attribute list has the plain attributes and the carried declarations, in canonical order without ties. |
| EtreeDetach.NsDetach | internal/dsig/etreeutils/namespace.go:200-260 | The result is a new tree that differs from the original in the declarations of its root only; it is refused over the limit if and only if the budget does not cover the tree, and the budget is charged exactly. |
| EtreeDetach.ElementSpaces | service_provider.go:1941-1984 | The walk meets exactly the prefixes of the element names of the tree. |
| EtreeDetach.ToStandalone | service_provider.go:1941-1984 | The copy that is serialized is the standalone element of the order in which the prefixes were met, on new objects. |
| Strip.ReturnsFree | service_provider.go:2017-2054 | The pass returns exactly the non-default prefixes that some name outside Signatures uses and that nothing in the element binds. |
| Strip.RemovesDead | service_provider.go:2017-2054 | At every level, exactly the prefix declarations to which no name outside Signatures is bound are removed, and everything else is kept. |
| Strip.RetainElements | service_provider.go:2041-2053 | A prefix declaration stays if and only if its prefix is in use and it is the one that counts, the last if there are several; other attributes always stay. |
| Strip.KeepsNames | service_provider.go:2017-2054 | No name outside Signatures changes its meaning, in any place that agrees with the old one on the returned prefixes and the default namespace. |
| Strip.DeclarationKept | service_provider.go:2041-2053 | A prefix declaration of the element itself is still there if and only if a name outside Signatures uses it. |
| Strip.ChildKeepsDeclaration | service_provider.go:2027-2040 | A declaration stays that the name of a child uses, unless the child is a Signature of XML Signature by local name and namespace. |
| Strip.SignatureUnbound | service_provider.go:2017-2054 | An input that loses the declaration which its Signature needs. |
| Strip.KeepsScoping | service_provider.go:2017-2054 | Without Signatures the result is well scoped wherever the element was. |
| Strip.KeepsForm | service_provider.go:2017-2054 | Without Signatures the exclusive canonical form is what it was. |
| EtreeEdit.RemoveUnused | service_provider.go:2041-2053 | The loop over a copy of the attributes, which removes from the attributes themselves, keeps exactly what is in use, the last declaration where a prefix is declared again, and returns the prefixes left to bind. |
| EtreeEdit.RetainAppend | service_provider.go:2041-2053 | A further declaration of a prefix in use takes the place of the one before it. |
| EtreeEdit.CollectOwn | service_provider.go:2017-2030 | The loop collects the non-default prefixes of the element's own names. |
| EtreeEdit.StripChild | service_provider.go:2031-2040 | One child is stripped in place and its prefixes count, unless it was a Signature before it was changed. |
| EtreeEdit.StripChildrenInPlace | service_provider.go:2031-2040 | The loop over the children strips each in place and gathers the prefixes of all that are not Signatures. |
| EtreeEdit.StripInPlace | service_provider.go:2017-2054 | The in-place pass over element objects leaves the stripped tree and returns its free prefixes. |
| InclusiveC14n.NewsAreDelta | internal/dsig/canonicalize.go:176-198 | The declarations that an element keeps are exactly the difference between what is in scope outside and inside it. |
| InclusiveC14n.PrepKeepsScope | internal/dsig/canonicalize.go:165-219 | Every element of the output has in scope what it had in the input, an empty default namespace counting as none, and the same other attributes. |
| InclusiveC14n.PrepLeavesNoRepeats | internal/dsig/canonicalize.go:165-219 | No declaration of the output repeats what is inherited, and no comment is left over. |
| InclusiveC14n.InclusiveCanonicalForm | internal/dsig/canonicalize.go:165-219 | Two elements get the same inclusive form if and only if they have the same attributes and the same bindings at every element. |
| InclusiveC14n.PrepIdempotent | internal/dsig/canonicalize.go:165-219 | A second run changes nothing. |
| InclusiveC14n.RemoveComments | internal/dsig/canonicalize.go:200-209 | The loop that removes by index takes out all comments and nothing else. |
| InclusiveC14n.CompactOne | internal/dsig/canonicalize.go:175-198 | One round of the compaction decides as the map of the ancestors would, keeps the order, and updates the map to what is kept. |
| InclusiveC14n.Compact | internal/dsig/canonicalize.go:174-198 | The sort and the compaction by index, with the map that it updates, keep exactly the plain attributes and the new declarations, in canonical order without ties, and leave what is then in scope in the map. |
| InclusiveC14n.PrepChildren | internal/dsig/canonicalize.go:200-216 | Comments go, and each child element is prepared in its place. |
| InclusiveC14n.CanonicalPrepInner | internal/dsig/canonicalize.go:169-219 | The pass gives the prepared tree, exactly without ties and up to attribute order with them, when no element declares a prefix twice. |
| Enveloped.RemoveInserted | internal/dsig/validate.go:85-105 | Removing by path what was inserted there gives the tree back, at any depth. |
| Enveloped.RemovalInView | internal/dsig/validate.go:85-105 | Removing by path takes exactly one element out of the view, and every other name keeps its meaning. |
| Enveloped.RemovalWellScoped | internal/dsig/validate.go:85-105 | Removal leaves a well-scoped tree well scoped. |
| Enveloped.RemovalCanonical | internal/dsig/validate.go:85-105 | Taking an element out of a canonical tree leaves a canonical tree. |
| Enveloped.VerifiesExactlyTheView | internal/dsig/validate.go:111-174 | The tree digested for verification equals the one digested for signing if and only if, but for the Signature, the received view is the signed view. |
| Enveloped.RemovalRestoresDigested | internal/dsig/sign.go:300-310 | Insert a Signature anywhere in the digested tree and canonicalize the whole: the Signature is still at its path, and removing it gives the digested tree. |
| Enveloped.UnusedChangesNothing | schema.go:789-798 | A declaration that nothing uses, such as the one added for xs, changes neither view nor free prefixes. |
| Enveloped.SignThenVerify | internal/dsig/validate.go:111-174 | Sign, insert, canonicalize, add an unused declaration, place in any document, detach, remove by path, canonicalize: the result is the digested tree if and only if the document does not give a default namespace to names that were signed without one. |
| Enveloped.SignedWithoutDefault | internal/dsig/validate.go:111-174 | An input whose verification fails: an unprefixed element, signed on its own, in a document with a default namespace. |
| Enveloped.SignedInfoAgrees | internal/dsig/sign.go:241-266 | The SignedInfo that is signed and the one that is verified have the same form if and only if the contexts that they were detached from agree on its free prefixes. |
| EtreeEdit.ReachedInside | internal/dsig/validate.go:66-83 | An element that a path reaches is one of the tree, and the path is one of its elements. |
| EtreeEdit.OnePath | internal/dsig/validate.go:66-83 | An element object is reached by one path only. |
| EtreeEdit.MapPathToElement | internal/dsig/validate.go:66-83 | The search returns the path to the very element object asked for, or nothing if no path leads to it. |
| EtreeEdit.RemoveElementAtPath | internal/dsig/validate.go:85-105 | It succeeds if and only if the path leads to an element, then exactly that element is gone, and otherwise nothing has changed. |
| EtreeEdit.Copy | internal/dsig/validate.go:111-174 | A copy is made of new objects and has the same tree. |
| EtreeEdit.CanonicalWithout | internal/dsig/validate.go:111-174 | The path is found in the original and the element removed from a copy, which becomes the canonical tree without the Signature; the original is not changed. |
| Traversal.Limit.constructor | internal/dsig/etreeutils/namespace.go:15-43 | A new context starts with a budget of 1000 elements. |
| Traversal.Limit.Take | internal/dsig/etreeutils/namespace.go:56-63 | One unit is taken if there is one, and otherwise the limit is reported and nothing changes. |
| Traversal.CheckSubtreeLimit | internal/dsig/etreeutils/namespace.go:65-81 | It succeeds if and only if the budget is at least the number of elements in the tree, takes exactly that number, and otherwise leaves zero. |
| Traversal.NsTraverse | internal/dsig/etreeutils/namespace.go:171-196 | The recursion with its early exits and its shared counter is a scan of the elements in document order, one unit each and what the handler takes, up to the first error. |
| Traversal.TraverseChildren | internal/dsig/etreeutils/namespace.go:185-194 | The loop over the children is the scan of their elements. |
| Traversal.TraversalBudget | internal/dsig/etreeutils/namespace.go:171-196 | With a handler that never objects and no bad declaration, a traversal succeeds if and only if the budget covers the tree; it takes exactly the number of elements, and visits all of them or as many as the budget has. |
| Traversal.FindsFirst | internal/dsig/etreeutils/namespace.go:298-330 | A search halts with an element if and only if that is the first thing in document order that stops it, within the budget. |
| Traversal.SeekFinds | internal/dsig/etreeutils/namespace.go:298-330 | A search by name finds an element if and only if one has that tag and a prefix that resolves to that namespace, nothing before it in document order fails to resolve, and the budget reaches that far; what is found is the first one. |
| Traversal.EventsInside | internal/dsig/etreeutils/namespace.go:171-196 | The context that a handler is given is the one inside its element. |
| Traversal.SelectPays | internal/dsig/etreeutils/namespace.go:272-291 | A search that detaches what it finds goes as one that does not, and then pays for every element of that. |
| Traversal.SelectBudget | internal/dsig/etreeutils/namespace.go:272-291 | Where the element with the name is the first one and everything before it resolves, it is found if and only if the budget covers the elements up to it and all those in it once more; that is exactly what is taken, and otherwise which of the two limits is reported is decided by where the budget ends. |
| Traversal.PayingBudget | internal/dsig/etreeutils/namespace.go:171-196 | A traversal with a handler that takes from the budget itself succeeds if and only if the budget covers the elements and all that the handler takes. |
| Store.MemoryStore.Get | samlidp/memory_store.go:17-27 | The stored value, or nothing if there is none. |
| Store.MemoryStore.Put | samlidp/memory_store.go:29-43 | Exactly one entry is set. |
| Store.MemoryStore.Delete | samlidp/memory_store.go:45-53 | Exactly one entry is removed. |
| Store.MemoryStore.List | samlidp/memory_store.go:55-67 | Exactly the keys under the prefix, without it, each once. |
| Store.PutUnder | samlidp/memory_store.go:29-43 | What is stored under a prefix shows there under its name, and nothing else does. |
| Store.PutUnderOther | samlidp/memory_store.go:29-43 | It does not show under another prefix, unless one starts with the other. |
| Services.CurrentLater | samlidp/service.go:48-61 | What has expired stays expired, and filtering at an earlier time does not change what is current later. |
| Services.UnexpiredPlaces | samlidp/service.go:54-56 | The descriptors that stay are exactly those without a time limit or with one that is later than now, in their order. |
| Services.CurrentExactly | samlidp/service.go:48-61 | There is current metadata if and only if its own time limit, if any, and that of some descriptor, if any, are later than now. |
| Services.PutKeepsIndexed | samlidp/service.go:144-166 | Replacing or adding a service keeps the two maps the exact inverse of what is stored. |
| Services.PutExactly | samlidp/service.go:102-167 | A put is refused exactly for metadata that cannot be read, has a key for an unknown use or is not current, for an entity ID that another service has, or for a failing store; otherwise the service is stored, and the maps are the index. |
| Services.DeleteKeepsIndexed | samlidp/service.go:170-203 | So does deleting one. |
| Services.DeleteExactly | samlidp/service.go:170-193 | A delete succeeds exactly if the service is stored and the store does not fail; then it is gone, and otherwise nothing has changed. |
| Services.IndexUnique | samlidp/service.go:133-164 | What is stored decides both maps, and no two stored services have the same entity ID. |
| Services.RunKeepsIndexed | samlidp/service.go:102-229 | After any run of puts and deletes, with store calls that may fail, the maps are still the exact index of the store. |
| Services.NeverDisplaces | samlidp/service.go:133-164 | No operation on one service changes the record or takes the entity ID of another. |
| Services.RestartRebuilds | samlidp/service.go:207-229 | After any run the store has distinct entity IDs, so that a restart succeeds, and the rebuilt maps are the same. |
| Services.Server.GetServiceProvider | samlidp/service.go:29-46 | It answers for an entity ID if and only if a stored service has it and is current, with the current part of the stored metadata. |
| Services.Server.HandlePutService | samlidp/service.go:102-167 | The handler takes the step of the model for put, with the same answer, and keeps the index. |
| Services.Server.HandleDeleteService | samlidp/service.go:170-193 | The handler takes the step of the model for delete, with the same answer, and keeps the index. |
| Services.Server.DeregisterServiceProvider | samlidp/service.go:197-203 | Both entries go if the service holds the entity ID, and nothing changes otherwise. |
| Services.Server.InitializeServices | samlidp/service.go:207-229 | It succeeds if and only if the store can be listed, every record can be read and no two have the same entity ID, and then the index is complete. |
| Users.StepFrame | samlidp/user.go:78-183 | What each step of a request may touch: its own progress and lock, the users only in two steps, the sessions only in those that store or end them. |
| Users.RunCoherent | samlidp/session.go:99-197 | Over any interleaving, every stored session was made from the recorded version of its user. |
| Users.ReturnedSessionsAgree | samlidp/session.go:165-197 | Whatever happens in between, a session that is returned was made from the very version of the user that was read, and its NameID, email, groups and details are those of that version. |
| Users.LoginIsReturned | samlidp/session.go:99-197 | There are runs in which a session is returned: a user with the right password logs in and comes back before the session expires. |
| Users.ChangeRevokes | samlidp/user.go:127-139 | Storing or deleting a user puts every earlier version of it in the past at once, before any session is ended. |
| Users.RevokedForGood | samlidp/session.go:183-195 | A version in the past stays there, and no session made from it is returned again, even if a login stored it late or ending the sessions failed midway. |
| Users.StepDistinctEmails | samlidp/user.go:88-102 | Each step keeps the emails distinct, although deletes do not take the lock. |
| Users.PrincipalsStayDistinct | samlidp/user.go:88-102 | Over any run from a store with distinct emails, no two users get emails that differ in case only. |
| Users.OnePrincipalOneUser | samlidp/session.go:179-196 | In any state reached, two usable sessions with non-empty NameIDs that differ in case only belong to the same user. |
| UserHistory.PutSessionAdds | samlidp/session.go:106-132 | The step of a login that stores a session does so exactly when the password verifies against the record that was read and the store does not fail; the session says what that record says. |
| UserHistory.SessionsNeedPasswords | samlidp/session.go:89-137 | Over every run, a session that was not stored at the start was stored for a login of that run, with a password that the hash in the version of its user verifies. |
| UserHistory.ReturnedInTime | samlidp/session.go:165-197 | Over every run, a session that is returned was looked up no later than its end, and was stored at the start or for such a login. |
| UserHistory.VersionsWereAsked | samlidp/user.go:78-141 | Over every run, a new version of a user says what a request of that run says, with a hash of the password that it gives, or else one that was in use before or came with the request. |
| UserHistory.EndingEndsAll | samlidp/user.go:162-183 | When ending the sessions of a user comes to its end and the store did not fail it, none is left of those that there were when it began, whatever went on meanwhile. |
| UserHistory.ChangeEndsAll | samlidp/user.go:127-157 | So it is for every change or deletion of a user. |
| UserHistory.SessionsStay | samlidp/session.go:165-197 | A session stays as it is as long as nobody changes or deletes its user, logs out with it, or deletes it, whatever happens to others. |
| UserHistory.LogoutEnds | samlidp/session.go:356-383 | A logout ends the session of the cookie if and only if there is one that has not expired, its user is as it says, and the request names its principal and, when it lists any, its index. |
| UserHistory.FailureEnds | samlidp/session.go:89-197 | A call of the store that fails ends the request and changes nothing that is stored. |
| UserHistory.RefusedForAnother | samlidp/user.go:86-101 | Over every run, a request whose email is refused without a failing store is refused because another user has that email. |
| UserEmails.EmailOwner | samlidp/user.go:187-208 | It returns another user with the email, or nothing only if no other user that is still there has it, or an error only if the listing or a reading fails. |
| UserEmails.CheckUserEmails | samlidp/user.go:212-236 | It accepts exactly the stores that can be listed and read and in which no two users have the same non-empty email. |
| Redirect.UnescapeEscape | service_provider.go:337-348 | Decoding an encoded value gives it back, for every byte string. |
| Redirect.DecodesSpellings | identity_provider_signature.go:178-224 | Decoding gives a string if and only if the text spells it: each byte by itself, a space by a plus sign, or a percent sign and two digits in either case. |
| Redirect.EscapePrints | service_provider.go:335-353 | Encoding keeps letters, digits and four marks, makes a plus sign of a space, and spells every other byte with two upper-case digits. |
| Redirect.SplitJoin | identity_provider_signature.go:178-195 | Splitting at ampersands undoes joining. |
| Redirect.PairReserved | identity_provider_signature.go:178-195 | A pair counts for a reserved parameter if and only if what is before its first equals sign spells that; the value is kept as it is written. |
| Redirect.RedirectParameters | identity_provider_signature.go:178-195 | It succeeds if and only if every key can be decoded and no reserved parameter is repeated, and then maps each reserved parameter to its raw value. |
| Redirect.ProducedReserved | service_provider.go:335-353 | The produced query has exactly the printed parameters as its reserved pairs, in order, whatever else the destination had, as long as that can be decoded and has no reserved parameter. |
| Redirect.Reordered | identity_provider_signature.go:178-195 | Reordering pairs with distinct keys changes neither that nor the map. |
| Redirect.RebuildsSigned | identity_provider_signature.go:199-218 | The string that the verifier rebuilds is the string that was signed, for the produced query and any other with its reserved pairs in any order among any other pairs with keys that decode. |
| Redirect.SignedDetermines | service_provider.go:335-353 | The string that is signed determines the parameter, the message, the relay state and the algorithm. |
| Redirect.VerifyRedirectSignature | identity_provider_signature.go:199-250 | A query is accepted if and only if its reserved pairs can be read without doubt, none is missing, and the check passes on the rebuilt string. |
| Redirect.AddPair | identity_provider.go:670-692 | One round of the decoder appends the value of the pair to its key, or nothing if the pair is dropped. |
| Redirect.PairDecodes | identity_provider.go:670-692 | A pair is decoded to a key and a value if and only if it is not empty, has no semicolon, and is written with spellings of the two. |
| Redirect.ParseQuery | identity_provider.go:670-692 | For every query, the decoder holds for each key the values of the pairs that are not dropped, in order. |
| Redirect.DecoderAgrees | identity_provider.go:670-692 | For every query that `redirectParameters` accepts, the decoder holds at most one value for a reserved parameter, and it is the verified raw value, decoded. |
| Redirect.DecodesOriginal | identity_provider.go:670-692 | From the produced query, or a reordering of it among other pairs, the decoder gets the original message and relay state. |
| Redirect.SignedQueryVerifies | identity_provider_signature.go:199-250 | Such a query is accepted if and only if the check passes on the algorithm, string and signature that the sender had. |
| Redirect.RearrangedReserved | identity_provider_signature.go:178-195 | Joining the pairs of a query in any order, among any pairs whose keys decode and are not reserved, keeps its reserved pairs. |
| Redirect.RearrangedQueryVerifies | identity_provider_signature.go:199-250 | The signed query of the sender, with its pairs in any order among any such others, is accepted if and only if the check passes on what the sender signed, and decodes to the original message and relay state. |
| Acceptance.ValidateSubjectConfirmations | service_provider.go:1249-1290 | It passes if and only if some bearer confirmation is in order; otherwise it reports each cause once. |
| Acceptance.ValidateAudienceRestriction | service_provider.go:1292-1311 | It passes if and only if there is an audience restriction and each of them names the service provider. |
| Acceptance.ValidateAssertion | service_provider.go:1224-1247 | The whole chain passes if and only if every condition holds. |
| Acceptance.AcceptanceWindow | identity_provider.go:1241-1304 | The service provider accepts what the identity provider makes if and only if they agree on names and address, the request is tracked, and the time is from Now - 2 MaxClockSkew to the smaller of IssueInstant + MaxIssueDelay and Now + MaxIssueDelay + MaxClockSkew. |
| KeyInfo.SearchFindsChain | service_provider.go:1402-1402 | The search for a certificate succeeds if and only if there is a chain of children with those local names, in whatever namespaces. |
| KeyInfo.DroppedView | service_provider.go:1402-1408 | With the Signature gone, the view is what it would have been without this step if and only if the step removed nothing outside the Signature. |
| KeyInfo.DropsWithinWhen | service_provider.go:1402-1408 | It removes nothing outside a Signature that is a child if and only if some child named Signature has a certificate, that Signature is the first such child, or the first one has no KeyInfo. |
| KeyInfo.OtherLosesKeyInfo | service_provider.go:1402-1408 | An input that loses an element outside its Signature. |
| EtreeEdit.FindChain | service_provider.go:1402-1402 | The recursive search over element objects finds a chain exactly when there is one in the tree. |
| EtreeEdit.DropKeyInfoInPlace | service_provider.go:1402-1408 | The in-place step leaves the tree without the first KeyInfo of the first child named Signature, or as it was. |
| Pipeline.FindChildren | service_provider.go:1878-1908 | The children with the name and namespace, in document order, each with its context; a name that cannot be resolved is an error. |
| Pipeline.FindsExactly | service_provider.go:1878-1908 | The search fails if and only if it meets a child of that local name whose namespace cannot be told, and otherwise finds exactly the children with the name and, in their own scope, the namespace, in document order. |
| Pipeline.VerifiesExactly | service_provider.go:1327-1378 | The signature check succeeds if and only if there is exactly one Signature among the children, there are certificates, and what is left of the element validates; it reports that there is none if and only if there is none. |
| Pipeline.EnvelopeExactly | service_provider.go:1025-1076 | The envelope is in order if and only if no signature fails, where one is required, and status, destination, request, age and issuer of the record are as they have to be. |
| Pipeline.BadResponseRefused | service_provider.go:1046-1071 | Each of these that is not so is an error. |
| Pipeline.FailedSignatureReported | service_provider.go:1025-1076 | A signature that fails is reported only after the attributes have been found to be in order. |
| Pipeline.EncryptedBeforePlain | service_provider.go:1078-1135 | The first valid encrypted assertion is returned, whatever plain ones there are, and the first valid plain one only if no encrypted one is valid. |
| Pipeline.ReturnedAssertion | service_provider.go:1224-1311 | What is returned is of the identity provider and not too old, has a bearer confirmation that answers a known request at the right address in time, and conditions that hold now and name the service provider. |
| Pipeline.ArtifactEnvelopeExactly | service_provider.go:906-953 | The envelope of an artifact response is in order if and only if no signature fails, its attributes are as they have to be, and there is exactly one Response in it. |
| Pipeline.CheckAssertion | service_provider.go:1198-1218 | An assertion is read from what the signature check returned, when one is required, and has to be valid. |
| Pipeline.ParseResponse | service_provider.go:1025-1135 | The result is the first valid assertion, encrypted ones first and then plain ones, each in document order; an error if and only if an envelope check or the search for them fails or none is valid, and then the first one. If there is one, the record of the Response has a success, the right destination, a known request, an age within the delay and no foreign issuer. |
| Pipeline.CollectedFirst | service_provider.go:1078-1135 | The head of the appended list of assertions is the first valid one, and the head of the errors is the first error. |
| Pipeline.ResponseProvenance | service_provider.go:1025-1135 | When a signature is required, what is returned was read, perhaps after decryption, from inside content that a successful check of an element of the message returned. |
| Pipeline.ParseArtifactResponse | service_provider.go:906-966 | The envelope of the artifact response is checked, then its one Response is handled; whatever is returned was read from verified content. |
| Pipeline.ArtifactProvenance | service_provider.go:906-966 | Either the artifact response itself is verified, or the Response or the assertion in it. |
| Search.RewrittenView | internal/dsig/validate.go:380-435 | A SignedInfo for which its exclusive canonical form is put in keeps its names in that place if and only if no default namespace around it takes hold of names that had none. |
| Search.OrdinaryIsSettled | internal/dsig/validate.go:380-435 | None does if the SignedInfo does not declare the default namespace to be that of the prefix xml. |
| Search.SearchKeepsView | internal/dsig/validate.go:369-470 | A search that so rewrites the SignedInfo of every Signature it passes by keeps the view. |
| Search.SearchedRemoval | internal/dsig/validate.go:369-470 | What the search has rewritten does not show once the Signature that it ends at is removed. |
| Provenance.ContentLessSignature | internal/dsig/validate.go:223-339 | The content that `Validate` returns is canonical, and its view is that of the element it was given, in its document, less the Signature, whatever the search has rewritten on its way. |
| Provenance.ContentOfOriginal | service_provider.go:1360-1408 | It is that of the element as it was in the message, too, if and only if the removal of the KeyInfo stayed within the Signature. |
| Provenance.ResponseContent | service_provider.go:1025-1135 | An accepted assertion of a Response that needs a signature was read from a canonical tree whose view is that of an element of the message, after the step that removes a KeyInfo, less its Signature. |
| Provenance.ArtifactContent | service_provider.go:906-966 | So was one from an artifact response. |
| Provenance.SignedIsVerified | service_provider.go:1327-1378 | For an element that was signed as the signer does it, in a document that does not change its names, the signature check returns the digested tree. |
| Provenance.SignedIsAccepted | service_provider.go:1025-1135 | A Response that was signed so, with one assertion, which the identity provider made and which arrives in its window, is accepted, and that assertion is the only possible result. |
| Cbc.AppendPadding | xmlenc/cbc.go:171-176 | The buffer filled in place is the input, zeros, and a last byte with the count, cut to a byte. |
| Cbc.PaddedLength | xmlenc/cbc.go:171-176 | The padded length is the least multiple of the block size greater than the input length. |
| Cbc.StripPadding | xmlenc/cbc.go:178-190 | It never reads outside the buffer, and accepts exactly the buffers whose last byte counts from one to all bytes but one; what it returns is not empty. |
| Cbc.PaddingRoundTrip | xmlenc/cbc.go:171-190 | Padding comes off again if and only if the input was not empty and the count fits in a byte. |
| Cbc.XorBitsTwice | xmlenc/cbc.go:67-71 | Combining twice with the same block gives the block back. |
| Cbc.XorAt | xmlenc/cbc.go:67-71 | Blocks are combined bit by bit: a bit is set if it is set in exactly one of the two. |
| Cbc.UnchainChain | xmlenc/cbc.go:67-71 | Undoing the chain gives the blocks back, for any block permutation and initialization vector. |
| Cbc.ChainAt | xmlenc/cbc.go:67-71 | Each sealed block is the cipher on its plain block combined with the sealed block before it, or with the initialization vector. |
| Cbc.UnchainAt | xmlenc/cbc.go:122-124 | Each plain block is the opened sealed block combined with the sealed block before it, or with the initialization vector. |
| Cbc.RoundTrip | xmlenc/cbc.go:62-131 | Decrypting what was encrypted gives the plaintext back if and only if it is not empty and the padding count fits in a byte; the empty plaintext is refused for block sizes up to 255. |
| Cbc.SmallBlocksRoundTrip | xmlenc/cbc.go:62-131 | With blocks of 1 to 255 bytes only the empty plaintext is lost. |
| Cbc.DecryptedLength | xmlenc/cbc.go:112-131 | What decryption returns is not empty, and 1 to 255 bytes shorter than the blocks after the initialization vector, which were whole. |
| Cbc.EncryptBlocks | xmlenc/cbc.go:67-71 | The block-by-block encryption is the chain, and each of its blocks is sealed as said, with the block before it. |
| Cbc.DecryptBlocks | xmlenc/cbc.go:122-124 | The block-by-block decryption undoes the chain, and each of its blocks is opened as said, with the block before it. |
| Cbc.Encrypt | xmlenc/cbc.go:34-78 | The key errors in their order, then a failing source of randomness, and otherwise the initialization vector and the padded plaintext, each block of it sealed with the one before. |
| Cbc.Decrypt | xmlenc/cbc.go:94-131 | The key errors in their order, then the two length errors, and otherwise what is left without padding of the blocks, each opened with the one before. |
| Decimal.ValueDigits | duration.go:29-45 | The printed digits of a number denote it. |
| Decimal.TrimKeepsFraction | duration.go:42 | Trimming trailing zeros keeps the value of a fraction, and trims away only the fraction zero. |
| Durations.MarshalText | duration.go:18-48 | The text that is put together field by field is sign, PT and the fields of hours, minutes and seconds that are positive. |
| Durations.DurationRegexp | duration.go:57 | The parse finds groups in a text if and only if the text is made of them as the regular expression says, so there is at most one match and none is missed. |
| Durations.TimeRegexp | duration.go:58 | The same for the expression of the time part. |
| Durations.AddField | duration.go:79-119 | A field that is present adds its product with the unit, wrapped to int64, and a number beyond int64 is its error. |
| Durations.AddDate | duration.go:79-99 | The date fields add up, or the first that is out of range is reported. |
| Durations.AddTime | duration.go:100-126 | So do the time fields, after the second expression has matched. |
| Durations.Duration.UnmarshalText | duration.go:62-130 | The receiver gets the duration that the text denotes, and keeps its value on an error. |
| Durations.Denotes | duration.go:51-130 | What a text comes to has the lowest 64 bits of the sum of its fields, with its sign: years of 365 days, months of 30 days, days, hours, minutes and the nanoseconds of its seconds. |
| Durations.SpelledDenotes | duration.go:51-130 | The same for a text spelled out with the letters of its fields. |
| Durations.AcceptsExactly | duration.go:57-130 | A text is accepted if and only if it is made of such fields, not all of them absent, with no number beyond int64. |
| Durations.SecondsWithin | duration.go:120-124 | Seconds come to the doubled rounding of their decimal value times 10^9, cut off at the nanosecond, if that is an int64. |
| Durations.WholeSeconds | duration.go:120-124 | Whole seconds come to their nanoseconds as long as those are below 2^53. |
| Binary64.IntegerExact | duration.go:124 | Integers below 2^53 are not rounded. |
| Binary64.DyadicExact | duration.go:124 | So are binary fractions that come to such integers when they are scaled by a power of two. |
| Binary64.RelativeError | duration.go:120-124 | Rounding to binary64 has a relative error of at most 2^-53 from 10^-9 up. |
| Durations.ProductBounds | duration.go:124 | Below one minute, the product of the two roundings stays within one nanosecond, and is exact for the multiples of one 512th of a second, whole seconds among them. |
| Durations.ShortWhenLost | duration.go:120-124 | Below one minute the rounded product falls short of n nanoseconds if and only if, in integers, the remainder of n * 2^e by 10^9 is less than half of that and more than half of 2^(e-k), where 2^-e and 2^-k are the units of the doubles for the seconds and just below n. |
| Durations.UnmarshalMarshalled | duration.go:18-130 | What every printed int64 denotes when parsed: itself, or one nanosecond less if the rounded product falls short; the smallest int64 prints as -PT, which is refused. |
| Durations.RoundTrip | duration.go:18-130 | Print and parse fails only for the smallest int64; otherwise the sign is kept, multiples of one 512th of a second, whole seconds among them, are exact, and the magnitude is the same, or one nanosecond less exactly when that condition in integers holds of the nanoseconds within the minute. |
| Durations.LosesOne | duration.go:120-124 | One duration that does lose a nanosecond: PT1.001S is read as 1.000999999 seconds. |

## Left out

- Relocate.StandaloneKeepsNames: speaks of element names only, because the code copies declarations for element prefixes only; attribute prefixes below the element may lose theirs.
- ExcC14n.CanonicalForm: is for the empty prefix list; with a list, KeepsView, OutputCanonical, FixedPoints and Idempotent still hold.
- AttrOrder.SortAttrs: sorts by insertion, which the Go library does for short slices; only the comparison and the exchange are the repository's. The order among tied attributes is left open unless the values that stand for their namespaces are without doubt or nothing has to be moved.
- Etree.TransformExcC14n: after an error it says nothing about the half-rewritten tree, which the callers drop; which of several undeclared prefixes is reported depends on map order; `Etree.DeclareMissing` says that it is one of them, the whole rewrite only that there is one.
- InclusiveC14n.CanonicalPrepInner: works on values, as the code works on a copy; it needs elements that declare no prefix twice, and leaves the order of tied attributes open. The map of declarations has the prefix as its key where the code has the whole attribute name.
- EtreeEdit.StripInPlace: what the ancestors declare is a parameter, where the code walks up the tree.
- Traversal.NsTraverse: works on values, with a handler that may take from the budget but does not change the tree; what `findSignature` changes while it searches is in Search, without the budget.
- Store.MemoryStore.List: leaves the order of the names open, as the code does. Values are stored as they are, where the code stores their JSON.
- Services.Server.InitializeServices: the order of the names, which affects only the words of an error, is not modelled.
- Users.ReturnedSessionsAgree: takes new revisions and session identifiers to be fresh, and starts from a store whose sessions were made from versions of its users.
- UserEmails.EmailOwner: users who change between the listing and the reading are covered by the state machine in Users, not here. Comparison without case is equality of a folding function.
- Redirect.RebuildsSigned: is about the query string; base64, DEFLATE and the size limit of the decoded request are not part of it, and neither is the unsigned query.
- Acceptance.AcceptanceWindow: has unbounded times in nanoseconds and the default hooks; saturation of Go's times and the lower precision of their XML form are not modelled.
- Pipeline.ResponseProvenance: takes certificates, `Validate`, decryption and reading an element into a struct as functions of their input; a custom SignatureVerifier is left out.
- Provenance.ResponseContent: takes `Validate` to return the form that one enveloped transform and one exclusive canonicalization without comments give, with any prefix list; other lists of transforms are left out, and reading the verified bytes back is taken to give the same tree.
- Search.SearchedUpTo: is for passed-by Signatures with an exclusive SignedInfo which no default namespace takes hold of (`Search.RewrittenView` has the exact condition), and for a Signature that is not itself inside such a SignedInfo; an inclusive SignedInfo that is passed by is left out.
- Cbc.RoundTrip: says nothing about base64, the XML around the bytes or an encrypted key; the block cipher is any permutation of the blocks.
- Durations.RoundTrip: the two regular expressions are modelled for texts of characters; invalid UTF-8 is not modelled, nor are the calendar durations that are kept as text.
- Cryptography and X.509: digests, signatures, certificates and their validity; only which bytes or trees are compared is modelled.
- HTTP, cookies, HTML templates, JSON, metadata fetching, JSON web tokens and bcrypt: plumbing around the state that is modelled.
- Parsing and printing of XML text and `encoding/xml`: the model starts from well-formed trees.
- `getParentNamespaceAndXmlAttributes` and `enhanceNamespaceAttributes`: they do nothing on the detached copies that are validated.
- The shape checks, Reference lookup and certificate choice of `findSignature` and `Validate`: the path, the removal and the canonicalization are modelled, for one enveloped transform and one exclusive canonicalization.
- The `Element` and `MarshalXML` builders, the metadata structs, attribute mapping, custom enforcers and session providers: long, but each function says what it does.
- Writes to the store that do not go through the handlers.
