/**
 * The rider and environment records of the power model (physics.h), and the
 * air-density computation that EnvironmentParams caches in one of its fields.
 */
module PhysicsParams {
  import opened Transcendental

  // ---------------------------------------------------------------------------
  // CyclistParams
  // ---------------------------------------------------------------------------

  /** Default drivetrain loss, as a fraction of the power at the wheel. */
  const DefaultDrivetrainPenalty: real := 0.02

  /** Rider and bike: total mass (kg), drag area CdA (m²), rolling resistance
      coefficient and drivetrain loss fraction. */
  datatype CyclistParams = CyclistParams(
    totalMassKg: real,
    cda: real,
    rollingCoeff: real,
    drivetrainPenalty: real)

  /** The four-argument constructor: every field as given. */
  function NewCyclistWithPenalty(totalMassKg: real, cda: real, rollingCoeff: real, penalty: real): (cp: CyclistParams)
    ensures cp.totalMassKg == totalMassKg && cp.cda == cda && cp.rollingCoeff == rollingCoeff
    ensures cp.drivetrainPenalty == penalty
  {
    CyclistParams(totalMassKg, cda, rollingCoeff, penalty)
  }

  /** The three-argument constructor: the drivetrain penalty keeps its default. */
  function NewCyclist(totalMassKg: real, cda: real, rollingCoeff: real): (cp: CyclistParams)
    ensures cp == NewCyclistWithPenalty(totalMassKg, cda, rollingCoeff, DefaultDrivetrainPenalty)
    ensures cp.drivetrainPenalty == 0.02
  {
    CyclistParams(totalMassKg, cda, rollingCoeff, DefaultDrivetrainPenalty)
  }

  // ---------------------------------------------------------------------------
  // Air density
  // ---------------------------------------------------------------------------

  /** Specific gas constant of dry air, J/(kg·K). */
  const SpecificGasConstant: real := 287.05
  /** Gravitational acceleration used throughout, m/s². */
  const Gravity: real := 9.80
  /** Molar mass of dry air, kg/mol. */
  const MolarMass: real := 0.0289644
  /** Universal gas constant, J/(mol·K). */
  const GasConstant: real := 8.31446
  /** Offset from degrees Celsius to kelvin. */
  const CelsiusToKelvin: real := 273.15
  /** Sea-level pressure, Pa. */
  const SeaLevelPressure: real := 101325.0

  function TemperatureK(temperatureC: real): real { temperatureC + CelsiusToKelvin }

  /** Barometric pressure at the given altitude. */
  function Pressure(lib: Libm, temperatureC: real, altitudeM: real): real
    requires TemperatureK(temperatureC) != 0.0
  {
    SeaLevelPressure * lib.exp(-Gravity * MolarMass * altitudeM / (GasConstant * TemperatureK(temperatureC)))
  }

  /** Saturation vapour pressure of water (Magnus formula). */
  function SaturationPressure(lib: Libm, temperatureC: real): real
    requires TemperatureK(temperatureC) != 0.0
  {
    610.78 * lib.exp((17.27 * temperatureC) / TemperatureK(temperatureC))
  }

  /** Partial pressure of water vapour at the given relative humidity (%). */
  function VapourPressure(lib: Libm, temperatureC: real, humidityPercent: real): real
    requires TemperatureK(temperatureC) != 0.0
  {
    humidityPercent * SaturationPressure(lib, temperatureC) / 100.0
  }

  /** Partial pressure of the dry air. */
  function DryPressure(lib: Libm, temperatureC: real, altitudeM: real, humidityPercent: real): real
    requires TemperatureK(temperatureC) != 0.0
  {
    Pressure(lib, temperatureC, altitudeM) - VapourPressure(lib, temperatureC, humidityPercent)
  }

  /** The density GetAirDensity computes, kg/m³. */
  function AirDensity(lib: Libm, temperatureC: real, altitudeM: real, humidityPercent: real): real
    requires TemperatureK(temperatureC) != 0.0
  {
    DryPressure(lib, temperatureC, altitudeM, humidityPercent) / (SpecificGasConstant * TemperatureK(temperatureC))
  }

  /** More humidity means more water vapour: the saturation pressure is positive. */
  lemma VapourPressureMonotone(lib: Libm, temperatureC: real, h1: real, h2: real)
    requires Ideal(lib)
    requires TemperatureK(temperatureC) != 0.0
    requires h1 <= h2
    ensures VapourPressure(lib, temperatureC, h1) <= VapourPressure(lib, temperatureC, h2)
  {
    var s := SaturationPressure(lib, temperatureC);
    assert s > 0.0;
    assert h1 * s <= h2 * s;
  }

  /** Above absolute zero, raising the humidity never raises the density. */
  lemma {:induction false} AirDensityHumidityMonotone(lib: Libm, temperatureC: real, altitudeM: real, h1: real, h2: real)
    requires Ideal(lib)
    requires TemperatureK(temperatureC) > 0.0
    requires h1 <= h2
    ensures AirDensity(lib, temperatureC, altitudeM, h2) <= AirDensity(lib, temperatureC, altitudeM, h1)
  {
    VapourPressureMonotone(lib, temperatureC, h1, h2);
    var d1 := DryPressure(lib, temperatureC, altitudeM, h1);
    var d2 := DryPressure(lib, temperatureC, altitudeM, h2);
    var den := SpecificGasConstant * TemperatureK(temperatureC);
    assert d2 <= d1 && den > 0.0;
    assert d2 / den <= d1 / den;
  }

  // ---------------------------------------------------------------------------
  // EnvironmentParams
  // ---------------------------------------------------------------------------

  /** Default relative humidity, %. */
  const DefaultHumidityPercent: real := 50.0
  /** Air density before GetAirDensity has run, kg/m³. */
  const DefaultAirDensity: real := 1.22

  /** Riding conditions; `airDensityKgm3` caches the last GetAirDensity result. */
  class EnvironmentParams {
    var gradientPercent: real
    var headwindKph: real
    var altitudeM: real
    var humidityPercent: real
    var temperatureC: real
    var airDensityKgm3: real

    /** The five-argument constructor. */
    constructor (g: real, hw: real, alt: real, hum: real, temp: real)
      ensures gradientPercent == g && headwindKph == hw && altitudeM == alt
      ensures humidityPercent == hum && temperatureC == temp
      ensures airDensityKgm3 == DefaultAirDensity
    {
      gradientPercent := g;
      headwindKph := hw;
      altitudeM := alt;
      humidityPercent := hum;
      temperatureC := temp;
      airDensityKgm3 := DefaultAirDensity;
    }

    /** The three-argument constructor: no headwind, default humidity. */
    constructor WithDefaults(g: real, alt: real, temp: real)
      ensures gradientPercent == g && altitudeM == alt && temperatureC == temp
      ensures headwindKph == 0.0 && humidityPercent == DefaultHumidityPercent
      ensures airDensityKgm3 == DefaultAirDensity
    {
      gradientPercent := g;
      headwindKph := 0.0;
      altitudeM := alt;
      humidityPercent := DefaultHumidityPercent;
      temperatureC := temp;
      airDensityKgm3 := DefaultAirDensity;
    }

    /** The density for the current temperature, altitude and humidity. */
    function Density(lib: Libm): real
      reads this
      requires TemperatureK(temperatureC) != 0.0
    {
      AirDensity(lib, temperatureC, altitudeM, humidityPercent)
    }

    /** Computes the air density, stores it in `airDensityKgm3` and returns it;
        no other field changes. */
    method GetAirDensity(lib: Libm) returns (density: real)
      requires TemperatureK(temperatureC) != 0.0
      modifies this`airDensityKgm3
      ensures density == AirDensity(lib, temperatureC, altitudeM, humidityPercent)
      ensures airDensityKgm3 == density
    {
      var temperatureK := temperatureC + CelsiusToKelvin;
      var p := SeaLevelPressure * lib.exp(-Gravity * MolarMass * altitudeM / (GasConstant * temperatureK));
      var pSatWat := 610.78 * lib.exp((17.27 * temperatureC) / temperatureK);
      var pWat := humidityPercent * pSatWat / 100.0;
      var pDry := p - pWat;
      airDensityKgm3 := pDry / (SpecificGasConstant * temperatureK);
      density := airDensityKgm3;
    }
  }

  /** Calling GetAirDensity twice gives the same value both times, and the cache
      holds it afterwards. */
  method GetAirDensityTwice(ep: EnvironmentParams, lib: Libm) returns (first: real, second: real)
    requires TemperatureK(ep.temperatureC) != 0.0
    modifies ep`airDensityKgm3
    ensures first == second == ep.airDensityKgm3 == ep.Density(lib)
  {
    first := ep.GetAirDensity(lib);
    second := ep.GetAirDensity(lib);
  }
}
