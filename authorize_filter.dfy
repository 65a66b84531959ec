/** RequireAuthorizeAttributeFilter: an MVC authorization filter that fails
    closed. A request passes only when its handler is a controller action and
    the action method or its controller carries [Authorize] or
    [AllowAnonymous] (or an attribute derived from either). The filter's two
    exceptions are the two error results. */
module AuthorizeFilter {
  import opened Wrappers

  /** A runtime type as reflection sees it: its full name and its base type
      (None only for System.Object). A type's chain of base types is finite
      and acyclic by construction. */
  datatype Type = Type(fullName: string, baseType: Option<Type>)

  const ObjectType := Type("System.Object", None)
  const AttributeType := Type("System.Attribute", Some(ObjectType))
  const AuthorizeAttribute :=
    Type("Microsoft.AspNetCore.Authorization.AuthorizeAttribute", Some(AttributeType))
  const AllowAnonymousAttribute :=
    Type("Microsoft.AspNetCore.Authorization.AllowAnonymousAttribute", Some(AttributeType))

  /** Type.IsSubclassOf(c): `c` is a strict ancestor of `t`. A strict
      ancestor is structurally smaller than its descendant, so the base-type
      relation has no cycles. */
  predicate IsSubclassOf(t: Type, c: Type)
    ensures IsSubclassOf(t, c) ==> c < t
    decreases t
  {
    match t.baseType
    case None => false
    case Some(b) => b == c || IsSubclassOf(b, c)
  }

  /** The base-type chain of `t`, nearest first: the reference definition
      IsSubclassOf is checked against. */
  function BaseTypes(t: Type): (r: seq<Type>)
    decreases t
  {
    match t.baseType
    case None => []
    case Some(b) => [b] + BaseTypes(b)
  }

  /** The filter's IsSameOrSubclass(potentialBase, potentialDescendant). */
  predicate IsSameOrSubclass(potentialBase: Type, potentialDescendant: Type)
    ensures IsSameOrSubclass(potentialBase, potentialDescendant)
        <==> potentialBase in [potentialDescendant] + BaseTypes(potentialDescendant)
  {
    IsSubclassOfBaseTypes(potentialDescendant, potentialBase);
    IsSubclassOf(potentialDescendant, potentialBase) || potentialDescendant == potentialBase
  }

  /** The test applied to each attribute's type. */
  predicate Qualifies(attributeType: Type)
    ensures Qualifies(attributeType) <==>
      var lineage := [attributeType] + BaseTypes(attributeType);
      AuthorizeAttribute in lineage || AllowAnonymousAttribute in lineage
  {
    IsSameOrSubclass(AuthorizeAttribute, attributeType)
    || IsSameOrSubclass(AllowAnonymousAttribute, attributeType)
  }

  /** Enumerable.Any with that test, scanning from the front. */
  predicate AnyQualifies(attributeTypes: seq<Type>)
    ensures AnyQualifies(attributeTypes) <==> exists a :: a in attributeTypes && Qualifies(a)
    decreases |attributeTypes|
  {
    if attributeTypes == [] then false
    else
      assert attributeTypes == [attributeTypes[0]] + attributeTypes[1..];
      Qualifies(attributeTypes[0]) || AnyQualifies(attributeTypes[1..])
  }

  /** The action descriptor of the request. Only a ControllerActionDescriptor
      (or a subclass of it) exposes the method and controller whose custom
      attributes are inspected; every other descriptor, and a missing one,
      is `OtherDescriptor`. */
  datatype ActionDescriptor =
    | ControllerActionDescriptor(methodAttributes: seq<Type>, controllerAttributes: seq<Type>)
    | OtherDescriptor

  /** The two exceptions the filter throws. */
  datatype AuthorizationError = MissingAttribute | UnsupportedDescriptor {
    function Message(): string {
      match this
      case MissingAttribute =>
        "You (Developer) need to add an [Authorize] or [AllowAnonymous] attribute on this controller or method"
      case UnsupportedDescriptor =>
        "Not sure how to enforce [Authorize]/[AllowAnonymous] Attributes on this thing"
    }
  }

  /** OnAuthorizationAsync: Ok(()) for the completed task, Err for a throw. */
  function OnAuthorization(descriptor: ActionDescriptor): (r: Result<(), AuthorizationError>)
    ensures descriptor.OtherDescriptor? ==> r == Err(UnsupportedDescriptor)
    ensures descriptor.ControllerActionDescriptor? ==>
      (r.Ok? <==> exists a :: a in descriptor.methodAttributes + descriptor.controllerAttributes && Qualifies(a))
    ensures r.Err? && descriptor.ControllerActionDescriptor? ==> r.error == MissingAttribute
  {
    match descriptor
    case ControllerActionDescriptor(methodAttributes, controllerAttributes) =>
      var allAttrs := methodAttributes + controllerAttributes;
      if !AnyQualifies(allAttrs) then Err(MissingAttribute) else Ok(())
    case OtherDescriptor =>
      Err(UnsupportedDescriptor)
  }

  // ---------------------------------------------------------------------
  // Properties

  /** IsSubclassOf agrees with membership in the base-type chain. */
  lemma {:induction false} IsSubclassOfBaseTypes(t: Type, c: Type)
    ensures IsSubclassOf(t, c) <==> c in BaseTypes(t)
    decreases t
  {
    match t.baseType
    case None =>
    case Some(b) => IsSubclassOfBaseTypes(b, c);
  }

  /** No type is a subclass of itself, so for the attribute types themselves
      it is the equality half of IsSameOrSubclass that lets them qualify. */
  lemma SubclassIrreflexive(t: Type)
    ensures !IsSubclassOf(t, t)
  {
  }

  /** IsSubclassOf is transitive. */
  lemma {:induction false} SubclassTransitive(a: Type, b: Type, c: Type)
    requires IsSubclassOf(a, b) && IsSubclassOf(b, c)
    ensures IsSubclassOf(a, c)
    decreases a
  {
    match a.baseType
    case Some(p) =>
      if p != b {
        SubclassTransitive(p, b, c);
      }
  }

  /** A type derived from a qualifying type, at any depth, qualifies too. */
  lemma DescendantQualifies(d: Type, t: Type)
    requires Qualifies(t) && IsSubclassOf(d, t)
    ensures Qualifies(d)
  {
    if IsSubclassOf(t, AuthorizeAttribute) {
      SubclassTransitive(d, t, AuthorizeAttribute);
    } else if IsSubclassOf(t, AllowAnonymousAttribute) {
      SubclassTransitive(d, t, AllowAnonymousAttribute);
    }
  }

  /** The two attribute types themselves qualify; their bases
      System.Attribute and System.Object do not. */
  lemma AttributeTypesQualify()
    ensures Qualifies(AuthorizeAttribute) && Qualifies(AllowAnonymousAttribute)
    ensures !Qualifies(AttributeType) && !Qualifies(ObjectType)
  {
    assert IsSubclassOf(AuthorizeAttribute, AttributeType);
    SubclassIrreflexive(AttributeType);
    AncestorNotDescendant(AuthorizeAttribute, AttributeType);
    AncestorNotDescendant(AllowAnonymousAttribute, AttributeType);
    assert IsSubclassOf(AttributeType, ObjectType);
    SubclassTransitive(AuthorizeAttribute, AttributeType, ObjectType);
    SubclassTransitive(AllowAnonymousAttribute, AttributeType, ObjectType);
    AncestorNotDescendant(AuthorizeAttribute, ObjectType);
    AncestorNotDescendant(AllowAnonymousAttribute, ObjectType);
  }

  /** IsSubclassOf is asymmetric. */
  lemma AncestorNotDescendant(t: Type, c: Type)
    requires IsSubclassOf(t, c)
    ensures !IsSubclassOf(c, t) && c != t
  {
  }

  /** Fail closed: with no qualifying attribute on either the method or the
      controller, the request is refused. */
  lemma NoQualifyingAttributeFails(methodAttributes: seq<Type>, controllerAttributes: seq<Type>)
    requires forall a :: a in methodAttributes ==> !Qualifies(a)
    requires forall a :: a in controllerAttributes ==> !Qualifies(a)
    ensures OnAuthorization(ControllerActionDescriptor(methodAttributes, controllerAttributes)) == Err(MissingAttribute)
  {
  }

  /** Placement does not matter: exchanging the method's and the
      controller's attributes leaves the outcome unchanged. */
  lemma PlacementIrrelevant(methodAttributes: seq<Type>, controllerAttributes: seq<Type>)
    ensures OnAuthorization(ControllerActionDescriptor(methodAttributes, controllerAttributes))
         == OnAuthorization(ControllerActionDescriptor(controllerAttributes, methodAttributes))
  {
    var d1 := ControllerActionDescriptor(methodAttributes, controllerAttributes);
    var d2 := ControllerActionDescriptor(controllerAttributes, methodAttributes);
    if OnAuthorization(d1).Ok? {
      var a :| a in methodAttributes + controllerAttributes && Qualifies(a);
      assert a in controllerAttributes + methodAttributes;
    }
    if OnAuthorization(d2).Ok? {
      var a :| a in controllerAttributes + methodAttributes && Qualifies(a);
      assert a in methodAttributes + controllerAttributes;
    }
  }

  /** One qualifying attribute suffices, on the method or on the controller. */
  lemma OneQualifyingAttributeSuffices(methodAttributes: seq<Type>, controllerAttributes: seq<Type>, a: Type)
    requires a in methodAttributes || a in controllerAttributes
    requires Qualifies(a)
    ensures OnAuthorization(ControllerActionDescriptor(methodAttributes, controllerAttributes)) == Ok(())
  {
    assert a in methodAttributes + controllerAttributes;
  }

  /** Monotone: adding attributes to either list, anywhere, never turns a
      pass into a refusal. */
  lemma Monotone(m: seq<Type>, c: seq<Type>, m': seq<Type>, c': seq<Type>)
    requires forall a :: a in m ==> a in m'
    requires forall a :: a in c ==> a in c'
    requires OnAuthorization(ControllerActionDescriptor(m, c)).Ok?
    ensures OnAuthorization(ControllerActionDescriptor(m', c')).Ok?
  {
    var a :| a in m + c && Qualifies(a);
    assert a in m' + c';
  }
}
