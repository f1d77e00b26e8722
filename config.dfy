/**
 * The package configuration: the font dictionary, the font, the five
 * colours and the three colouring parameters. It is an object that is
 * passed to every operation that reads or changes it.
 */
module Config {
  import opened Pixels
  import opened Errors
  import opened Font
  import opened ColoredChars

  /** The colours of the four quadrants and of characters that are not coloured. */
  datatype Palette = Palette(ul: Rgb, ur: Rgb, ll: Rgb, lr: Rgb, non: Rgb)

  /** The printable ASCII characters, then the left and right single and double quotation marks. */
  const DefaultCharacters: string :=
    seq(95, i requires 0 <= i < 95 => (32 + i) as char) + ['\U{2018}', '\U{2019}', '\U{201C}', '\U{201D}']

  /** The default colouring pattern `[a-z]`. */
  predicate IsLowerAscii(c: char)
  {
    'a' <= c <= 'z'
  }

  class Configuration {
    var fontDict: map<char, ColoredChar>
    var font: Option<Font>
    var ulColor: Rgb
    var urColor: Rgb
    var llColor: Rgb
    var lrColor: Rgb
    var nonColor: Rgb
    var substituteA: string
    var toColor: char -> bool
    var characters: string

    /** The state when the package is loaded, before the packaged dictionary is read in. */
    constructor ()
      ensures fontDict == map[] && font == None
      ensures ulColor == Rgb(255, 0, 0) && urColor == Rgb(0, 0, 255)
      ensures llColor == Rgb(128, 0, 128) && lrColor == Rgb(130, 130, 131)
      ensures nonColor == Rgb(0, 0, 0)
      ensures substituteA == "" && toColor == IsLowerAscii && characters == DefaultCharacters
    {
      fontDict := map[];
      font := None;
      ulColor, urColor := Rgb(255, 0, 0), Rgb(0, 0, 255);
      llColor, lrColor := Rgb(128, 0, 128), Rgb(130, 130, 131);
      nonColor := Rgb(0, 0, 0);
      substituteA := "";
      toColor := IsLowerAscii;
      characters := DefaultCharacters;
    }

    function Colors(): Palette
      reads this
    {
      Palette(ulColor, urColor, llColor, lrColor, nonColor)
    }
  }
}
