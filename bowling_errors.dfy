/** The ways a roll can be refused. */
module BowlingErrors {

  datatype BowlingError =
    | FramePinsExceeded            // a roll would take a frame past its 10-pin ceiling
    | ExtraRollWithOpenTenthFrame  // a third roll on a tenth frame that is neither strike nor spare
    | IndexOutOfRange              // a roll after the frame index has run past the last frame
}
