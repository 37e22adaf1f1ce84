/** `Constellation`: the twelve star signs and the dates each one spans. */
module Constellations {
  datatype Constellation =
    | Unknown | Capricorn | Aquarius | Pisces | Aries | Taurus | Gemini
    | Cancer | Leo | Virgo | Libra | Scorpio | Sagittarius

  /** `ConstellationDescriptionAttribute`: the first month and day and the last month and
    * day of a sign. */
  datatype Description = Description(startMonth: int, startDay: int, endMonth: int, endDay: int)

  /** The description attached to each sign. */
  function Describe(c: Constellation): Description
  {
    match c
    case Unknown => Description(0, 0, 0, 0)
    case Capricorn => Description(12, 22, 1, 19)
    case Aquarius => Description(1, 20, 2, 18)
    case Pisces => Description(2, 19, 3, 20)
    case Aries => Description(3, 21, 4, 20)
    case Taurus => Description(4, 21, 5, 20)
    case Gemini => Description(5, 21, 6, 21)
    case Cancer => Description(6, 22, 7, 22)
    case Leo => Description(7, 23, 8, 22)
    case Virgo => Description(8, 23, 9, 22)
    case Libra => Description(9, 23, 10, 22)
    case Scorpio => Description(10, 23, 11, 21)
    case Sagittarius => Description(11, 22, 12, 21)
  }

  /** The signs in declaration order. */
  const Signs: seq<Constellation> :=
    [Unknown, Capricorn, Aquarius, Pisces, Aries, Taurus, Gemini, Cancer, Leo, Virgo, Libra, Scorpio, Sagittarius]
}
