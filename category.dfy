/** One page of the board: a named, insertion-ordered map from image location to spoken text. */
module Category {
  import opened Outcomes
  import OrderedMap

  class AACCategory {
    /** The display name; the source never reassigns it after construction. */
    const name: string
    /** The image locations and their texts, in insertion order (the source's itemArray). */
    var items: seq<(string, string)>

    /** The associative array never stores an image location twice. */
    ghost predicate Valid()
      reads this
    {
      OrderedMap.DistinctKeys(items)
    }

    /** A new category has the given name and no images. */
    constructor (name: string)
      ensures Valid()
      ensures this.name == name && items == []
    {
      this.name := name;
      items := [];
    }

    /** Insert or overwrite `imageLoc -> text`; every other image keeps its text. */
    method AddItem(imageLoc: string, text: string)
      requires Valid()
      modifies this
      ensures Valid()
      ensures items == OrderedMap.Set(old(items), imageLoc, text)
      ensures HasImage(imageLoc) && Select(imageLoc) == Ok(text)
      ensures forall other :: other != imageLoc ==> OrderedMap.Get(items, other) == OrderedMap.Get(old(items), other)
    {
      OrderedMap.SetDistinct(items, imageLoc, text);
      OrderedMap.GetSetSame(items, imageLoc, text);
      forall other | other != imageLoc
        ensures OrderedMap.Get(OrderedMap.Set(items, imageLoc, text), other) == OrderedMap.Get(items, other)
      {
        OrderedMap.GetSetOther(items, imageLoc, text, other);
      }
      items := OrderedMap.Set(items, imageLoc, text);
    }

    /**
     * The image locations in iteration order, copied into a fresh array by walking the
     * map's iterator while an index counts the slots filled.
     */
    method GetImageLocs() returns (imageArray: array<string>)
      ensures fresh(imageArray)
      ensures imageArray[..] == OrderedMap.Keys(items)
    {
      imageArray := new string[|items|];
      var pending := items;
      var index := 0;
      while pending != []
        invariant 0 <= index <= imageArray.Length
        invariant pending == items[index..]
        invariant forall j :: 0 <= j < index ==> imageArray[j] == items[j].0
      {
        var pair := pending[0];
        pending := pending[1..];
        imageArray[index] := pair.0;
        index := index + 1;
      }
    }

    /** The category's name. */
    function GetCategory(): string
    {
      name
    }

    /** The text of `imageLoc`; NoSuchElement exactly when the image is not in the category. */
    function Select(imageLoc: string): (r: Result<string>)
      reads this
      ensures r.Ok? <==> HasImage(imageLoc)
      ensures r.Ok? ==> (imageLoc, r.value) in items
      ensures r.Err? ==> r.error == NoSuchElement
    {
      match OrderedMap.Get(items, imageLoc)
      case Some(text) => Ok(text)
      case None => Err(NoSuchElement)
    }

    /** Whether `imageLoc` is one of the category's images. */
    function HasImage(imageLoc: string): (b: bool)
      reads this
      ensures b <==> imageLoc in OrderedMap.Keys(items)
    {
      OrderedMap.HasKeyInKeys(items, imageLoc);
      OrderedMap.HasKey(items, imageLoc)
    }
  }
}
