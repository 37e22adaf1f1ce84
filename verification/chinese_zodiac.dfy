/** `ChineseZodiac`: the twelve animals of the Chinese calendar, numbered from 1. */
module ChineseZodiacs {
  datatype ChineseZodiac =
    | Unknown | Rat | Ox | Tiger | Hare | Dragon | Snake | Horse | Sheep | Monkey | Cock | Dog | Boar

  /** The enumeration value with the given number, as the cast `(ChineseZodiac) n` reads
    * it; numbers outside 0..12 have no name here. */
  function FromNumber(n: int): (z: ChineseZodiac)
    requires 0 <= n <= 12
    ensures n != 0 <==> z != Unknown
  {
    match n
    case 1 => Rat
    case 2 => Ox
    case 3 => Tiger
    case 4 => Hare
    case 5 => Dragon
    case 6 => Snake
    case 7 => Horse
    case 8 => Sheep
    case 9 => Monkey
    case 10 => Cock
    case 11 => Dog
    case 12 => Boar
    case _ => Unknown
  }
}
