/** `Color`: an RGBA tint with four `f32` channels (src/color.rs). */
module Colors {
  datatype Color = Color(r: real, g: real, b: real, a: real) {
    /** `as_arr`: the channels in the order red, green, blue, alpha. */
    function AsArr(): (arr: seq<real>)
      ensures |arr| == 4
      ensures Color(arr[0], arr[1], arr[2], arr[3]) == this
    {
      [r, g, b, a]
    }

    /** `with_alpha`: a copy of this colour with only the alpha replaced. */
    function WithAlpha(alpha: real): (c: Color)
      ensures c.AsArr()[..3] == AsArr()[..3]
      ensures c.AsArr()[3] == alpha
    {
      Color(r, g, b, alpha)
    }
  }

  /** Setting the alpha back to its old value gives the original colour back. */
  lemma WithAlphaRestores(c: Color, alpha: real)
    ensures c.WithAlpha(alpha).WithAlpha(c.a) == c
  {
  }

  /** `Color::new`. */
  function New(r: real, g: real, b: real, a: real): (c: Color)
    ensures c.AsArr() == [r, g, b, a]
  {
    Color(r, g, b, a)
  }

  /** `Color::gray`: the three colour channels equal `c`. */
  function Gray(c: real, a: real): (color: Color)
    ensures color.AsArr() == [c, c, c, a]
    ensures color == New(c, c, c, 1.0).WithAlpha(a)
  {
    Color(c, c, c, a)
  }

  const BLACK: Color := Color(0.0, 0.0, 0.0, 1.0)
  const GRAY: Color := Color(0.5, 0.5, 0.5, 1.0)
  const WHITE: Color := Color(1.0, 1.0, 1.0, 1.0)
  const RED: Color := Color(1.0, 0.0, 0.0, 1.0)
  const GREEN: Color := Color(0.0, 1.0, 0.0, 1.0)
  const BLUE: Color := Color(0.0, 0.0, 1.0, 1.0)
  const YELLOW: Color := Color(1.0, 1.0, 0.0, 1.0)
  const ORANGE: Color := Color(0.93, 0.44, 0.08, 1.0)
  const PRUSSIAN_BLUE: Color := Color(0.0, 0.19, 0.36, 1.0)

  /**
   * The all-zero colour `push_vertex` falls back to when no colour is given.
   * Zero alpha tells the shader to use the texture rather than a tint.
   */
  const ZEROS: Color := Color(0.0, 0.0, 0.0, 0.0)

  /** The named constants of the module, all fully opaque. */
  function NamedColors(): (cs: seq<Color>)
    ensures |cs| == 9
    ensures forall c <- cs :: c.a == 1.0
  {
    [BLACK, GRAY, WHITE, RED, GREEN, BLUE, YELLOW, ORANGE, PRUSSIAN_BLUE]
  }
}
