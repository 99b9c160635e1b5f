/**
 The slice of a web page's document that both widgets touch: an element is
 reduced to its class list and, where the widget reads one, its `data-tab`
 attribute. Adding a class to a class list that already holds it, or removing
 one it does not hold, changes nothing, which is exactly set union and set
 difference.
 */
module Dom {

  /** The class list of one element. */
  type ClassList = set<string>

  datatype Option<+T> = None | Some(value: T)

  /** An element of the document: its `data-tab` attribute, if it has one, and its class list. */
  datatype Element = Element(dataTab: Option<string>, classList: ClassList)

  /** `classList.add(cls)` on element `i` of `items`. */
  function AddClass(items: seq<ClassList>, i: nat, cls: string): seq<ClassList>
    requires i < |items|
  {
    items[i := items[i] + {cls}]
  }

  /** `classList.remove(cls)` on element `i` of `items`. */
  function RemoveClass(items: seq<ClassList>, i: nat, cls: string): seq<ClassList>
    requires i < |items|
  {
    items[i := items[i] - {cls}]
  }
}
