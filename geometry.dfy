/**
 * The fixed constants of the thermal camera firmware (src/main.cpp:17-27).
 * Temperatures are modelled as integers in tenths of a degree Celsius,
 * so every constant that is a temperature is written in tenths here.
 */
module Geometry {
  /** Sensor rows and columns of the MLX90640 array. */
  const Rows: int := 24
  const Cols: int := 32
  const TotalPixels: int := Rows * Cols

  /** `humanThreshold`: 3.5 degrees above the frame average, in tenths. */
  const HumanThreshold: int := 35

  /** The secondary (neighbour) threshold is 2 degrees below the primary one, in tenths. */
  const NeighbourMargin: int := 20

  /** The sensor identifier written into every record. */
  const SensorId: string := "MLX90640"
}
