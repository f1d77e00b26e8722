/**
 * The configuration setters of settings.py. Each one changes only the
 * fields it is given and then rebuilds the font dictionary, so that the
 * dictionary always matches the font, colours and parameters in force.
 * The colour and parameter setters refuse to run before a font is set.
 */
module Settings {
  import opened Pixels
  import opened Errors
  import opened Font
  import opened Config
  import opened FontDict

  /** A font is set and the dictionary is the one the configuration's font, colours and parameters give. */
  ghost predicate Consistent(config: Configuration)
    reads config
  {
    && config.font.Some?
    && config.fontDict
       == FontDictOf(config.characters, config.font.value, config.Colors(), config.substituteA, config.toColor)
  }

  /** A setter's argument: a given value replaces the current one, an absent one keeps it. */
  function Override<T>(current: T, given: Option<T>): (v: T)
    ensures given.Some? ==> v == given.value
    ensures given.None? ==> v == current
  {
    if given.Some? then given.value else current
  }

  /** set_font: install the font (ImageFont.truetype is not part of this model), then rebuild. */
  method SetFont(config: Configuration, font: Font)
    modifies config`font, config`fontDict
    ensures config.font == Some(font)
    ensures Consistent(config)
  {
    config.font := Some(font);
    MakeFontDict(config);
  }

  /**
   * set_colors: with no font, FontNotSet and nothing changes; otherwise
   * each given colour replaces the current one and the dictionary is rebuilt.
   */
  method SetColors(config: Configuration, ul: Option<Rgb>, ur: Option<Rgb>, ll: Option<Rgb>, lr: Option<Rgb>,
                   non: Option<Rgb>)
    returns (status: Status)
    modifies config`ulColor, config`urColor, config`llColor, config`lrColor, config`nonColor, config`fontDict
    ensures old(config.font).None? ==> status == Failed(FontNotSet) && unchanged(config)
    ensures old(config.font).Some? ==> status == Done && Consistent(config)
    ensures old(config.font).Some? ==> config.Colors() == Palette(
      Override(old(config.ulColor), ul), Override(old(config.urColor), ur), Override(old(config.llColor), ll),
      Override(old(config.lrColor), lr), Override(old(config.nonColor), non))
  {
    if config.font.None? {
      return Failed(FontNotSet);
    }
    if ul.Some? {
      config.ulColor := ul.value;
    }
    if ur.Some? {
      config.urColor := ur.value;
    }
    if ll.Some? {
      config.llColor := ll.value;
    }
    if lr.Some? {
      config.lrColor := lr.value;
    }
    if non.Some? {
      config.nonColor := non.value;
    }
    MakeFontDict(config);
    status := Done;
  }

  /**
   * set_parameters: with no font, FontNotSet and nothing changes; otherwise
   * the given substitute for "a", colouring predicate and character set
   * replace the current ones and the dictionary is rebuilt.
   */
  method SetParameters(config: Configuration, aHeight: Option<string>, charactersToColor: Option<char -> bool>,
                       fontCharacters: Option<string>)
    returns (status: Status)
    modifies config`substituteA, config`toColor, config`characters, config`fontDict
    ensures old(config.font).None? ==> status == Failed(FontNotSet) && unchanged(config)
    ensures old(config.font).Some? ==> status == Done && Consistent(config)
    ensures old(config.font).Some? ==>
      && config.substituteA == Override(old(config.substituteA), aHeight)
      && config.toColor == Override(old(config.toColor), charactersToColor)
      && config.characters == Override(old(config.characters), fontCharacters)
  {
    if config.font.None? {
      return Failed(FontNotSet);
    }
    if aHeight.Some? {
      config.substituteA := aHeight.value;
    }
    if charactersToColor.Some? {
      config.toColor := charactersToColor.value;
    }
    if fontCharacters.Some? {
      config.characters := fontCharacters.value;
    }
    MakeFontDict(config);
    status := Done;
  }

  /**
   * After any setter has succeeded, the dictionary holds a well-shaped glyph
   * for exactly the configured characters.
   */
  lemma ConsistentDictionary(config: Configuration)
    requires Consistent(config)
    ensures config.fontDict.Keys == (set c | c in config.characters)
    ensures ColoredChars.ValidFontDict(config.fontDict)
  {
    FontDictShape(config.characters, config.font.value, config.Colors(), config.substituteA, config.toColor);
  }
}
