/** The two-category board used as the running example of the file format. */
module Example {
  import opened Outcomes
  import OrderedMap
  import opened BoardModel
  import opened FileFormat

  const Plate := "img/food/plate.png"
  const Fries := "img/food/icons8-french-fries-96.png"
  const Watermelon := "img/food/icons8-watermelon-96.png"
  const Hanger := "img/clothing/hanger.png"
  const Shirt := "img/clothing/collaredshirt.png"

  /** The file: food with french fries and watermelon, then clothing with a collared shirt. */
  function ExampleFile(): seq<string>
  {
    [ "img/food/plate.png food",
      ">img/food/icons8-french-fries-96.png french fries",
      ">img/food/icons8-watermelon-96.png watermelon",
      "img/clothing/hanger.png clothing",
      ">img/clothing/collaredshirt.png collared shirt" ]
  }

  function FoodItems(): seq<(string, string)>
  {
    [(Fries, "french fries"), (Watermelon, "watermelon")]
  }

  function ClothingItems(): seq<(string, string)>
  {
    [(Shirt, "collared shirt")]
  }

  /** The registry the file describes: the home page, then food and clothing. */
  function ExampleRegistry(): seq<(string, Slot)>
  {
    [("", Home), (Plate, Named("food", FoodItems())), (Hanger, Named("clothing", ClothingItems()))]
  }

  /** The board after reading the file: the home page shows the two category icons. */
  function ExampleLoaded(): Board
  {
    Board(ExampleRegistry(), [(Plate, "food"), (Hanger, "clothing")], AtHome)
  }

  /** The category lines of the example file. */
  lemma ExampleHeaderLines()
    ensures HeaderLine(Plate, "food") == ExampleFile()[0]
    ensures HeaderLine(Hanger, "clothing") == ExampleFile()[3]
  {
  }

  lemma ExampleFriesLine()
    ensures ItemLine(Fries, "french fries") == ">img/food/icons8-french-fries-96.png french fries"
  {
    assert ">" + Fries == ">img/food/icons8-french-fries-96.png";
  }

  lemma ExampleWatermelonLine()
    ensures ItemLine(Watermelon, "watermelon") == ">img/food/icons8-watermelon-96.png watermelon"
  {
    assert ">" + Watermelon == ">img/food/icons8-watermelon-96.png";
  }

  lemma ExampleShirtLine()
    ensures ItemLine(Shirt, "collared shirt") == ">img/clothing/collaredshirt.png collared shirt"
  {
    assert ">" + Shirt == ">img/clothing/collaredshirt.png";
  }

  lemma ExampleClothingLines()
    ensures ItemLines(ClothingItems()) == ExampleFile()[4..]
  {
    ExampleShirtLine();
    assert ExampleFile()[4..] == [">img/clothing/collaredshirt.png collared shirt"];
  }

  /** writeToFile on the example registry writes exactly the example file. */
  lemma ExampleWritten()
    ensures Serialize(ExampleRegistry()) == ExampleFile()
  {
    var reg := ExampleRegistry();
    var r1 := reg[1..];
    var r2 := r1[1..];
    assert r2[1..] == [];
    assert Serialize(r2) == [HeaderLine(Hanger, "clothing")] + ItemLines(ClothingItems()) + Serialize(r2[1..]);
    assert Serialize(r1) == [HeaderLine(Plate, "food")] + ItemLines(FoodItems()) + Serialize(r2);
    assert Serialize(reg) == Serialize(r1);
    ExampleHeaderLines();
    ExampleFriesLine();
    ExampleWatermelonLine();
    assert ItemLines(FoodItems()) == ExampleFile()[1..3];
    ExampleClothingLines();
  }

  /** Visible ASCII characters only: no whitespace and no line break. */
  predicate Visible(s: string)
  {
    forall i :: 0 <= i < |s| ==> '!' <= s[i] <= '~'
  }

  /** A string of visible characters is a single token without line breaks. */
  lemma VisibleToken(s: string)
    requires Visible(s)
    ensures NoSpace(s) && NoLineBreak(s)
  {
  }

  /** The example's image locations and icons are single tokens. */
  lemma ExampleTokens()
    ensures NoSpace(Fries) && NoSpace(Watermelon) && NoSpace(Shirt)
    ensures NoLineBreak(Fries) && NoLineBreak(Watermelon) && NoLineBreak(Shirt)
    ensures GoodIcon(Plate) && GoodIcon(Hanger)
  {
    FriesVisible();
    WatermelonVisible();
    ShirtVisible();
    IconsVisible();
  }

  lemma FriesVisible()
    ensures NoSpace(Fries) && NoLineBreak(Fries)
  {
    VisibleToken(Fries);
  }

  lemma WatermelonVisible()
    ensures NoSpace(Watermelon) && NoLineBreak(Watermelon)
  {
    VisibleToken(Watermelon);
  }

  lemma ShirtVisible()
    ensures NoSpace(Shirt) && NoLineBreak(Shirt)
  {
    VisibleToken(Shirt);
  }

  lemma IconsVisible()
    ensures NoSpace(Plate) && NoLineBreak(Plate) && NoSpace(Hanger) && NoLineBreak(Hanger)
  {
    VisibleToken(Plate);
    VisibleToken(Hanger);
  }

  /** The example's names and texts survive a write and a read. */
  lemma ExampleTexts()
    ensures GoodText("french fries") && GoodText("watermelon") && GoodText("collared shirt")
    ensures GoodText("food") && GoodText("clothing")
  {
  }

  /** Every entry of the example registry survives a write and a read, and the loaded board is consistent. */
  lemma ExampleWritable()
    ensures Writable(ExampleRegistry())
    ensures Valid(ExampleLoaded())
  {
    ExampleTokens();
    ExampleTexts();
    assert Fries != Watermelon && Plate != Hanger;
  }

  /** The example registry exports its two categories and lists their two icons. */
  lemma ExampleExported()
    ensures Exported(ExampleRegistry()) == ExampleRegistry()[1..]
    ensures Icons(ExampleRegistry()) == [(Plate, "food"), (Hanger, "clothing")]
  {
    var reg := ExampleRegistry();
    var r1 := reg[1..];
    var r2 := r1[1..];
    assert r2[1..] == [];
    assert Exported(r2) == [r2[0]] + Exported(r2[1..]);
    assert Exported(r1) == [r1[0]] + Exported(r2);
    assert Icons(r2) == [(Hanger, "clothing")] + Icons(r2[1..]);
    assert Icons(r1) == [(Plate, "food")] + Icons(r2);
  }

  /** Reading the example file gives the example board, which writes the same file again. */
  lemma ExampleRead()
    ensures FromFile(Some(ExampleFile())) == ExampleLoaded()
    ensures Serialize(ExampleLoaded().registry) == ExampleFile()
  {
    var reg := ExampleRegistry();
    ExampleWritten();
    ExampleWritable();
    RoundTrip(ExampleLoaded());
    ExampleExported();
    assert [("", Home)] + reg[1..] == reg;
  }

  /** The loaded board shows the two category icons; selecting the plate opens food and yields "". */
  lemma ExampleHome()
    ensures ImageLocs(ExampleLoaded()) == [Plate, Hanger]
    ensures Select(ExampleLoaded(), Plate) == (ExampleLoaded().(cursor := Open(Plate)), Ok(""))
  {
    var b := ExampleLoaded();
    ExampleWritable();
    OrderedMap.GetAt(b.home, 0);
    OrderedMap.GetAt(b.registry, 1);
    SelectAtHome(b, Plate);
  }

  /**
   * In food, the images are the fries and the watermelon; selecting the fries speaks
   * "french fries" and stays there; the hanger, a home icon, is not an image of food.
   */
  lemma ExampleFood()
    ensures var food := ExampleLoaded().(cursor := Open(Plate));
            && ImageLocs(food) == [Fries, Watermelon]
            && CategoryName(food) == Ok("food")
            && Select(food, Fries) == (food, Ok("french fries"))
            && Select(food, Hanger) == (food, Err(NoSuchElement))
  {
    var food := ExampleLoaded().(cursor := Open(Plate));
    ExampleWritable();
    OrderedMap.GetAt(food.registry, 1);
    assert OpenCategory(food, Plate) == Some(("food", FoodItems()));
    OrderedMap.GetAt(FoodItems(), 0);
    assert !OrderedMap.HasKey(FoodItems(), Hanger);
    SelectFails(food, Hanger);
  }
}
