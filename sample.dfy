/** Arithmetic facts about the string that the program's driver checks,
    "277777788888899": the products of the digits along its persistence
    chain, split into pieces short enough for the verifier to evaluate, and
    the resulting persistence count. */
module Sample {
  import opened Decimal
  import opened PersistenceCheck

  /** The string that the driver checks. */
  const SAMPLE: seq<char> := "277777788888899"

  lemma Piece0()
    ensures DigitProduct("2777") == 686
  {
  }

  lemma Piece1()
    ensures DigitProduct("7778") == 2744
  {
  }

  lemma Product0()
    ensures DigitProduct("27777778") == 1882384
  {
    Piece0();
    Piece1();
    ProductOfConcat("2777", "7778");
    assert "2777" + "7778" == "27777778";
  }

  lemma Piece2()
    ensures DigitProduct("8888") == 4096
  {
  }

  lemma Product1()
    ensures DigitProduct("277777788888") == 7710244864
  {
    Product0();
    Piece2();
    ProductOfConcat("27777778", "8888");
    assert "27777778" + "8888" == "277777788888";
  }

  lemma Piece3()
    ensures DigitProduct("899") == 648
  {
  }

  lemma Product2()
    ensures DigitProduct("277777788888899") == 4996238671872
  {
    Product1();
    Piece3();
    ProductOfConcat("277777788888", "899");
    assert "277777788888" + "899" == "277777788888899";
  }

  lemma Rendering0()
    ensures ToDecimal(49962386) == "49962386"
  {
    assert ToDecimal(49) == "49";
    assert ToDecimal(4996) == "4996";
    assert ToDecimal(499623) == "499623";
  }

  lemma Rendering1()
    ensures ToDecimal(4996238671872) == "4996238671872"
  {
    Rendering0();
    assert ToDecimal(4996238671) == "4996238671";
    assert ToDecimal(499623867187) == "499623867187";
  }

  lemma Pass1(s: seq<char>)
    requires s == "277777788888899"
    ensures AllDigits(s) && Step(s) == "4996238671872"
  {
    assert AllDigits(s);
    assert DigitProduct(s) == 4996238671872 by { Product2(); }
    Rendering1();
  }

  lemma Piece4()
    ensures DigitProduct("4996") == 1944
  {
  }

  lemma Piece5()
    ensures DigitProduct("2386") == 288
  {
  }

  lemma Product3()
    ensures DigitProduct("49962386") == 559872
  {
    Piece4();
    Piece5();
    ProductOfConcat("4996", "2386");
    assert "4996" + "2386" == "49962386";
  }

  lemma Piece6()
    ensures DigitProduct("7187") == 392
  {
  }

  lemma Product4()
    ensures DigitProduct("499623867187") == 219469824
  {
    Product3();
    Piece6();
    ProductOfConcat("49962386", "7187");
    assert "49962386" + "7187" == "499623867187";
  }

  lemma Product5()
    ensures DigitProduct("4996238671872") == 438939648
  {
    Product4();
    ProductOfConcat("499623867187", "2");
    assert "499623867187" + "2" == "4996238671872";
  }

  lemma Rendering2()
    ensures ToDecimal(438939648) == "438939648"
  {
    assert ToDecimal(43) == "43";
    assert ToDecimal(4389) == "4389";
    assert ToDecimal(438939) == "438939";
    assert ToDecimal(43893964) == "43893964";
  }

  lemma Pass2(s: seq<char>)
    requires s == "4996238671872"
    ensures AllDigits(s) && Step(s) == "438939648"
  {
    assert AllDigits(s);
    assert DigitProduct(s) == 438939648 by { Product5(); }
    Rendering2();
  }

  lemma Piece8()
    ensures DigitProduct("4389") == 864
  {
  }

  lemma Piece9()
    ensures DigitProduct("3964") == 648
  {
  }

  lemma Product6()
    ensures DigitProduct("43893964") == 559872
  {
    Piece8();
    Piece9();
    ProductOfConcat("4389", "3964");
    assert "4389" + "3964" == "43893964";
  }

  lemma Product7()
    ensures DigitProduct("438939648") == 4478976
  {
    Product6();
    ProductOfConcat("43893964", "8");
    assert "43893964" + "8" == "438939648";
  }

  lemma Rendering3()
    ensures ToDecimal(4478976) == "4478976"
  {
    assert ToDecimal(44) == "44";
    assert ToDecimal(4478) == "4478";
    assert ToDecimal(447897) == "447897";
  }

  lemma Pass3(s: seq<char>)
    requires s == "438939648"
    ensures AllDigits(s) && Step(s) == "4478976"
  {
    assert AllDigits(s);
    assert DigitProduct(s) == 4478976 by { Product7(); }
    Rendering3();
  }

  lemma Piece11()
    ensures DigitProduct("4478") == 896
  {
  }

  lemma Piece12()
    ensures DigitProduct("976") == 378
  {
  }

  lemma Product8()
    ensures DigitProduct("4478976") == 338688
  {
    Piece11();
    Piece12();
    ProductOfConcat("4478", "976");
    assert "4478" + "976" == "4478976";
  }

  lemma Rendering4()
    ensures ToDecimal(338688) == "338688"
  {
    assert ToDecimal(33) == "33";
    assert ToDecimal(3386) == "3386";
  }

  lemma Pass4(s: seq<char>)
    requires s == "4478976"
    ensures AllDigits(s) && Step(s) == "338688"
  {
    assert AllDigits(s);
    assert DigitProduct(s) == 338688 by { Product8(); }
    Rendering4();
  }

  lemma Piece13()
    ensures DigitProduct("3386") == 432
  {
  }

  lemma Piece14()
    ensures DigitProduct("88") == 64
  {
  }

  lemma Product9()
    ensures DigitProduct("338688") == 27648
  {
    Piece13();
    Piece14();
    ProductOfConcat("3386", "88");
    assert "3386" + "88" == "338688";
  }

  lemma Rendering5()
    ensures ToDecimal(27648) == "27648"
  {
    assert ToDecimal(27) == "27";
    assert ToDecimal(2764) == "2764";
  }

  lemma Pass5(s: seq<char>)
    requires s == "338688"
    ensures AllDigits(s) && Step(s) == "27648"
  {
    assert AllDigits(s);
    assert DigitProduct(s) == 27648 by { Product9(); }
    Rendering5();
  }

  lemma Piece15()
    ensures DigitProduct("2764") == 336
  {
  }

  lemma Product10()
    ensures DigitProduct("27648") == 2688
  {
    Piece15();
    ProductOfConcat("2764", "8");
    assert "2764" + "8" == "27648";
  }

  lemma Rendering6()
    ensures ToDecimal(2688) == "2688"
  {
    assert ToDecimal(26) == "26";
  }

  lemma Pass6(s: seq<char>)
    requires s == "27648"
    ensures AllDigits(s) && Step(s) == "2688"
  {
    assert AllDigits(s);
    assert DigitProduct(s) == 2688 by { Product10(); }
    Rendering6();
  }

  lemma Piece16()
    ensures DigitProduct("2688") == 768
  {
  }

  lemma Rendering7()
    ensures ToDecimal(768) == "768"
  {
    assert ToDecimal(76) == "76";
  }

  lemma Pass7(s: seq<char>)
    requires s == "2688"
    ensures AllDigits(s) && Step(s) == "768"
  {
    assert AllDigits(s);
    assert DigitProduct(s) == 768 by { Piece16(); }
    Rendering7();
  }

  lemma Piece17()
    ensures DigitProduct("768") == 336
  {
  }

  lemma Rendering8()
    ensures ToDecimal(336) == "336"
  {
    assert ToDecimal(33) == "33";
  }

  lemma Pass8(s: seq<char>)
    requires s == "768"
    ensures AllDigits(s) && Step(s) == "336"
  {
    assert AllDigits(s);
    assert DigitProduct(s) == 336 by { Piece17(); }
    Rendering8();
  }

  lemma Piece18()
    ensures DigitProduct("336") == 54
  {
  }

  lemma Rendering9()
    ensures ToDecimal(54) == "54"
  {
  }

  lemma Pass9(s: seq<char>)
    requires s == "336"
    ensures AllDigits(s) && Step(s) == "54"
  {
    assert AllDigits(s);
    assert DigitProduct(s) == 54 by { Piece18(); }
    Rendering9();
  }

  lemma Piece19()
    ensures DigitProduct("54") == 20
  {
  }

  lemma Rendering10()
    ensures ToDecimal(20) == "20"
  {
  }

  lemma Pass10(s: seq<char>)
    requires s == "54"
    ensures AllDigits(s) && Step(s) == "20"
  {
    assert AllDigits(s);
    assert DigitProduct(s) == 20 by { Piece19(); }
    Rendering10();
  }

  lemma Piece20()
    ensures DigitProduct("20") == 0
  {
  }

  lemma Rendering11()
    ensures ToDecimal(0) == "0"
  {
  }

  lemma Pass11(s: seq<char>)
    requires s == "20"
    ensures AllDigits(s) && Step(s) == "0"
  {
    assert AllDigits(s);
    assert DigitProduct(s) == 0 by { Piece20(); }
    Rendering11();
  }

  lemma Tail11(s: seq<char>)
    requires s == "0"
    ensures AllDigits(s) && Persistence(s) == 0
  {
  }

  lemma Tail10(s: seq<char>)
    requires s == "20"
    ensures AllDigits(s) && Persistence(s) == 1
  {
    Pass11(s);
    Tail11(Step(s));
  }

  lemma Tail9(s: seq<char>)
    requires s == "54"
    ensures AllDigits(s) && Persistence(s) == 2
  {
    Pass10(s);
    Tail10(Step(s));
  }

  lemma Tail8(s: seq<char>)
    requires s == "336"
    ensures AllDigits(s) && Persistence(s) == 3
  {
    Pass9(s);
    Tail9(Step(s));
  }

  lemma Tail7(s: seq<char>)
    requires s == "768"
    ensures AllDigits(s) && Persistence(s) == 4
  {
    Pass8(s);
    Tail8(Step(s));
  }

  lemma Tail6(s: seq<char>)
    requires s == "2688"
    ensures AllDigits(s) && Persistence(s) == 5
  {
    Pass7(s);
    Tail7(Step(s));
  }

  lemma Tail5(s: seq<char>)
    requires s == "27648"
    ensures AllDigits(s) && Persistence(s) == 6
  {
    Pass6(s);
    Tail6(Step(s));
  }

  lemma Tail4(s: seq<char>)
    requires s == "338688"
    ensures AllDigits(s) && Persistence(s) == 7
  {
    Pass5(s);
    Tail5(Step(s));
  }

  lemma Tail3(s: seq<char>)
    requires s == "4478976"
    ensures AllDigits(s) && Persistence(s) == 8
  {
    Pass4(s);
    Tail4(Step(s));
  }

  lemma Tail2(s: seq<char>)
    requires s == "438939648"
    ensures AllDigits(s) && Persistence(s) == 9
  {
    Pass3(s);
    Tail3(Step(s));
  }

  lemma Tail1(s: seq<char>)
    requires s == "4996238671872"
    ensures AllDigits(s) && Persistence(s) == 10
  {
    Pass2(s);
    Tail2(Step(s));
  }

  lemma Tail0(s: seq<char>)
    requires s == "277777788888899"
    ensures AllDigits(s) && Persistence(s) == 11
  {
    Pass1(s);
    Tail1(Step(s));
  }

  /** The sample string has persistence 11. */
  lemma SamplePersistence()
    ensures AllDigits(SAMPLE) && Persistence(SAMPLE) == 11
  {
    Tail0(SAMPLE);
  }
}
