/**
 * The category document (api/models/category.model.js): the colour
 * validator, the `fullPath` virtual, the schema's bounds and its defaults.
 * Icon, image and meta fields are not modelled.
 */
module CategoryModel {
  import opened Wrappers
  import opened Text
  import Validation

  /** A stored category; `parentId` holds the parent's id as a string. */
  datatype Category = Category(
    id: string,
    name: string,
    slug: string,
    description: string,
    color: string,
    isActive: bool,
    isFeatured: bool,
    parentId: Option<string>,
    order: int,
    postsCount: int,
    viewsCount: int)

  const DefaultColor: string := "#3B82F6"

  /** The `color` validator: '#' and then three or six hex digits. */
  predicate ColorValidator(v: string) {
    |v| >= 1 && v[0] == '#' && (|v[1..]| == 3 || |v[1..]| == 6)
    && forall c :: c in v[1..] ==> IsHexDigit(c)
  }

  /** The schema validator accepts the same colours as `validateHexColor`. */
  lemma {:induction false} ColorValidatorIsHexColor(v: string)
    ensures ColorValidator(v) <==> Validation.ValidateHexColor(v)
  {
    if |v| >= 1 {
      assert forall i :: 1 <= i < |v| ==> v[i] == v[1..][i - 1];
    }
  }

  /** The `fullPath` virtual: `parent > name` for a subcategory, the name alone otherwise. */
  function FullPath(c: Category): (r: string)
    ensures Truthy(c.parentId) ==> |r| == |c.parentId.value| + 3 + |c.name|
    ensures !Truthy(c.parentId) ==> r == c.name
    ensures |r| >= |c.name| && r[|r| - |c.name|..] == c.name
  {
    if Truthy(c.parentId) then c.parentId.value + " > " + c.name else c.name
  }

  /** The path of a subcategory starts with its parent id followed by " > ". */
  lemma {:induction false} FullPathOfChild(c: Category)
    requires Truthy(c.parentId)
    ensures var p := c.parentId.value;
            FullPath(c)[..|p| + 3] == p + " > "
  {
  }

  /**
   * The schema's constraints on a stored category: a name of at most 50
   * characters, a non-empty lower-case slug, a description of at most 500
   * characters and a valid colour (the trim setters are applied earlier).
   */
  predicate WellFormed(c: Category) {
    && c.name != "" && |c.name| <= 50
    && c.slug != "" && Lower(c.slug) == c.slug
    && |c.description| <= 500
    && ColorValidator(c.color)
  }

  /** A new category with the schema's defaults. */
  function NewCategory(id: string, name: string, slug: string): (c: Category)
    ensures c.description == "" && c.color == DefaultColor && c.parentId.None?
    ensures c.order == 0 && c.isActive && !c.isFeatured && c.postsCount == 0 && c.viewsCount == 0
    ensures name != "" && |name| <= 50 && slug != "" && Lower(slug) == slug ==> WellFormed(c)
  {
    assert IsHexDigit('3') && IsHexDigit('B') && IsHexDigit('8') && IsHexDigit('2') && IsHexDigit('F') && IsHexDigit('6');
    assert DefaultColor[1..] == "3B82F6";
    Category(id, name, slug, "", DefaultColor, true, false, None, 0, 0, 0)
  }
}
