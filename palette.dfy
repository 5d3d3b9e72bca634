/** The theme colours the client pages pick for chips, icons and text. */
module Palette {
  datatype Colour = Default | Primary | Secondary | Success | Warning | Error | Info | Grey
}
